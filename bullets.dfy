/** The bullet pass of one frame (game.py:153-167) as Python runs it.

    The loop walks over a copy of the bullet list and a fresh copy of the enemy
    list per bullet; the copies hold the same dict objects as the live lists,
    the move `bullet['y'] -= BULLET_SPEED` updates the object in place, and
    `list.remove` drops the first VALUE-equal entry. To follow the objects, the
    live bullet list is paired with `slots`: for each live entry, the index in
    the copy of the object it holds. An entry of the copy whose object a
    removal has already taken out of the live list is still visited: it moves,
    can still destroy enemies and can still ask for a removal of its value. */
module Bullets {
  import opened Collision
  import opened ListOps
  import opened World

  function Raised(b: Pos): Pos
  {
    b.(y := b.y - BULLET_SPEED)
  }

  predicate Strikes(b: Pos, e: Pos)
  {
    IsCollision(b.x, b.y, BULLET_SIZE, e.x, e.y, ENEMY_SIZE)
  }

  /** State of the pass: live bullets with their slots, live enemies, score. */
  datatype Arena = Arena(bullets: seq<Pos>, slots: seq<nat>, enemies: seq<Pos>, score: int)

  /** Which `list.remove` raised `ValueError`. */
  datatype Fault = BulletMissing | EnemyMissing

  datatype Outcome = Done(arena: Arena) | Crash(fault: Fault)

  predicate Aligned(a: Arena)
  {
    |a.slots| == |a.bullets|
  }

  /** From `a` to `r` no bullet or enemy was added, and each enemy that
      left paid KILL_SCORE. */
  predicate Paid(a: Arena, r: Arena)
  {
    && |r.bullets| <= |a.bullets| && |r.enemies| <= |a.enemies|
    && r.score == a.score + KILL_SCORE * (|a.enemies| - |r.enemies|)
  }

  /** `[0, 1, …, n - 1]`: every entry of the copy sits in its own slot. */
  function Slots(n: nat): (s: seq<nat>)
    ensures |s| == n && forall k :: 0 <= k < n ==> s[k] == k
  {
    if n == 0 then [] else Slots(n - 1) + [n - 1]
  }

  /** `bullets.remove(b)`, taking the slot of the removed entry along. */
  function DropBullet(a: Arena, b: Pos): (r: Outcome)
    requires Aligned(a)
    ensures r.Crash? <==> b !in a.bullets
    ensures r.Crash? ==> r.fault == BulletMissing
    ensures r.Done? ==> Aligned(r.arena) && r.arena.enemies == a.enemies && r.arena.score == a.score
    ensures r.Done? ==> multiset(r.arena.bullets) == multiset(a.bullets) - multiset{b}
    ensures r.Done? ==> |r.arena.bullets| == |a.bullets| - 1
  {
    var k := IndexOf(a.bullets, b);
    if k < 0 then Crash(BulletMissing)
    else
      assert a.bullets == a.bullets[..k] + [b] + a.bullets[k + 1..];
      Done(a.(bullets := a.bullets[..k] + a.bullets[k + 1..], slots := a.slots[..k] + a.slots[k + 1..]))
  }

  /** The inner loop from position `j` of the enemy copy `foes`, for the moved
      bullet `b`: each enemy it overlaps costs a removal of `b`, a removal of
      that enemy, and adds KILL_SCORE. */
  function Strike(a: Arena, b: Pos, foes: seq<Pos>, j: nat): (r: Outcome)
    requires Aligned(a) && j <= |foes|
    ensures r.Done? ==> Aligned(r.arena) && Paid(a, r.arena)
    decreases |foes| - j
  {
    if j == |foes| then Done(a)
    else if !Strikes(b, foes[j]) then Strike(a, b, foes, j + 1)
    else
      match DropBullet(a, b)
      case Crash(f) => Crash(f)
      case Done(a1) =>
        match RemoveFirst(a1.enemies, foes[j])
        case None => Crash(EnemyMissing)
        case Some(es) => Strike(a1.(enemies := es, score := a1.score + KILL_SCORE), b, foes, j + 1)
  }

  /** `bullet['y'] -= BULLET_SPEED` for the object of entry `i`, which is `b`
      once moved: its live entry, if any, is updated. */
  function Moved(a: Arena, i: nat, b: Pos): (r: Arena)
    requires Aligned(a)
    ensures Aligned(r) && r.slots == a.slots && r.enemies == a.enemies && r.score == a.score
    ensures |r.bullets| == |a.bullets|
  {
    var k := IndexOf(a.slots, i);
    if k < 0 then a else a.(bullets := a.bullets[k := b])
  }

  /** The visit of entry `i` of the copy `snap`: move it up (in the live list
      too, if its object is still there), test it against a copy of the live
      enemies, then drop it if it left the top of the screen. */
  function Visit(a: Arena, snap: seq<Pos>, i: nat): (r: Outcome)
    requires Aligned(a) && i < |snap|
    ensures r.Done? ==> Aligned(r.arena) && Paid(a, r.arena)
  {
    var b := Raised(snap[i]);
    var a1 := Moved(a, i, b);
    match Strike(a1, b, a1.enemies, 0)
    case Crash(f) => Crash(f)
    case Done(a2) => if b.y < 0 then DropBullet(a2, b) else Done(a2)
  }

  /** The outer loop from entry `i` of the copy `snap` on. */
  function Sweep(a: Arena, snap: seq<Pos>, i: nat): (r: Outcome)
    requires Aligned(a) && i <= |snap|
    ensures r.Done? ==> Aligned(r.arena) && Paid(a, r.arena)
    decreases |snap| - i
  {
    if i == |snap| then Done(a)
    else
      match Visit(a, snap, i)
      case Crash(f) => Crash(f)
      case Done(a1) => Sweep(a1, snap, i + 1)
  }

  /** One step of the outer loop: a crashing visit ends the pass, and a
      finished one hands its arena to the next entry. */
  lemma SweepUnfold(a: Arena, snap: seq<Pos>, i: nat)
    requires Aligned(a) && i < |snap|
    ensures Visit(a, snap, i).Crash? ==> Sweep(a, snap, i) == Crash(Visit(a, snap, i).fault)
    ensures Visit(a, snap, i).Done? ==> Sweep(a, snap, i) == Sweep(Visit(a, snap, i).arena, snap, i + 1)
  {
  }

  /** The whole bullet pass, on the live lists and the score it starts from. */
  function BulletPass(bullets: seq<Pos>, enemies: seq<Pos>, score: int): (r: Outcome)
    ensures r.Done? ==> |r.arena.bullets| <= |bullets| && |r.arena.enemies| <= |enemies|
    ensures r.Done? ==> r.arena.score == score + KILL_SCORE * (|enemies| - |r.arena.enemies|)
  {
    Sweep(Arena(bullets, Slots(|bullets|), enemies, score), bullets, 0)
  }

  // ------------------------------------------------------------ invariants

  /** Slots are increasing indices into a copy of length `n`. */
  predicate SlotsOrdered(a: Arena, n: nat)
  {
    && |a.slots| == |a.bullets| <= n
    && (forall k :: 0 <= k < |a.slots| ==> a.slots[k] < n)
    && (forall k1, k2 :: 0 <= k1 < k2 < |a.slots| ==> a.slots[k1] < a.slots[k2])
  }

  /** Live bullets whose entry of the copy comes before `i` have been moved,
      are on the screen and overlap no live enemy. */
  predicate Settled(a: Arena, snap: seq<Pos>, i: nat)
    requires SlotsOrdered(a, |snap|)
  {
    forall k :: 0 <= k < |a.slots| && a.slots[k] < i ==>
      && a.bullets[k] == Raised(snap[a.slots[k]])
      && a.bullets[k].y >= 0
      && forall e :: e in a.enemies ==> !Strikes(a.bullets[k], e)
  }

  /** Live bullets whose entry of the copy is `i` or later are unmoved. */
  predicate Waiting(a: Arena, snap: seq<Pos>, i: nat)
    requires SlotsOrdered(a, |snap|)
  {
    forall k :: 0 <= k < |a.slots| && a.slots[k] >= i ==> a.bullets[k] == snap[a.slots[k]]
  }

  /** The live bullet of entry `i`, if still present, holds `b`. */
  predicate Current(a: Arena, i: nat, b: Pos)
  {
    forall k :: 0 <= k < |a.slots| && k < |a.bullets| && a.slots[k] == i ==> a.bullets[k] == b
  }

  predicate Between(a: Arena, snap: seq<Pos>, i: nat)
  {
    SlotsOrdered(a, |snap|) && Settled(a, snap, i) && Waiting(a, snap, i)
  }

  predicate During(a: Arena, snap: seq<Pos>, i: nat, b: Pos)
  {
    SlotsOrdered(a, |snap|) && Settled(a, snap, i) && Waiting(a, snap, i + 1) && Current(a, i, b)
  }

  /** Enemies only leave, and each one that left paid KILL_SCORE. */
  predicate Tally(a: Arena, enemies: seq<Pos>, score: int)
  {
    multiset(a.enemies) <= multiset(enemies) && a.score == score + KILL_SCORE * (|enemies| - |a.enemies|)
  }

  /** The enemies of `foes` that `b` does not overlap, in order. */
  function Spared(foes: seq<Pos>, b: Pos): (r: seq<Pos>)
    ensures forall e :: e in r <==> e in foes && !Strikes(b, e)
  {
    if |foes| == 0 then []
    else
      var e := foes[|foes| - 1];
      Spared(foes[..|foes| - 1], b) + if Strikes(b, e) then [] else [e]
  }

  /** Number of enemies of `foes` that `b` overlaps. */
  function Struck(foes: seq<Pos>, b: Pos): nat
  {
    if |foes| == 0 then 0
    else (if Strikes(b, foes[0]) then 1 else 0) + Struck(foes[1..], b)
  }

  /** The bullets of `bs`, each moved up by BULLET_SPEED, that are still on
      the screen, in order. */
  function Flown(bs: seq<Pos>): (r: seq<Pos>)
    ensures |r| <= |bs| && forall p :: p in r ==> p.y >= 0
  {
    if |bs| == 0 then []
    else
      var b := Raised(bs[|bs| - 1]);
      Flown(bs[..|bs| - 1]) + if b.y < 0 then [] else [b]
  }

  // ------------------------------------------------------------ proofs

  /** `r` is `a` with the live entry `k` removed, from the bullets and the
      slots alike, and the same enemies and score. */
  predicate Removed(a: Arena, r: Arena, k: int)
  {
    && 0 <= k < |a.slots| && |a.slots| == |a.bullets|
    && |r.slots| == |r.bullets| == |a.slots| - 1
    && r.enemies == a.enemies && r.score == a.score
    && (forall k2 :: 0 <= k2 < k ==> r.slots[k2] == a.slots[k2] && r.bullets[k2] == a.bullets[k2])
    && (forall k2 :: k <= k2 < |r.slots| ==> r.slots[k2] == a.slots[k2 + 1] && r.bullets[k2] == a.bullets[k2 + 1])
  }

  lemma DropRemoves(a: Arena, b: Pos)
    requires Aligned(a) && DropBullet(a, b).Done?
    ensures Removed(a, DropBullet(a, b).arena, IndexOf(a.bullets, b))
  {
    var k := IndexOf(a.bullets, b);
    var r := DropBullet(a, b).arena;
    CutAt(a.bullets, k, r.bullets);
    CutAt(a.slots, k, r.slots);
  }

  /** Cutting entry `k` out of a sequence shifts the later entries down by one. */
  lemma CutAt<T>(s: seq<T>, k: int, c: seq<T>)
    requires 0 <= k < |s| && c == s[..k] + s[k + 1..]
    ensures |c| == |s| - 1
    ensures forall k2 :: 0 <= k2 < k ==> c[k2] == s[k2]
    ensures forall k2 :: k <= k2 < |c| ==> c[k2] == s[k2 + 1]
  {
  }

  lemma RemovedOrdered(a: Arena, r: Arena, k: int, n: nat)
    requires Removed(a, r, k) && SlotsOrdered(a, n)
    ensures SlotsOrdered(r, n)
  {
    forall k1, k2 | 0 <= k1 < k2 < |r.slots| ensures r.slots[k1] < r.slots[k2] {
      var j1 := if k1 < k then k1 else k1 + 1;
      var j2 := if k2 < k then k2 else k2 + 1;
      assert r.slots[k1] == a.slots[j1] && r.slots[k2] == a.slots[j2];
    }
  }

  lemma RemovedSettled(a: Arena, r: Arena, k: int, snap: seq<Pos>, i: nat)
    requires Removed(a, r, k) && SlotsOrdered(a, |snap|) && SlotsOrdered(r, |snap|) && Settled(a, snap, i)
    ensures Settled(r, snap, i)
  {
    forall k2 | 0 <= k2 < |r.slots| && r.slots[k2] < i
      ensures r.bullets[k2] == Raised(snap[r.slots[k2]]) && r.bullets[k2].y >= 0
      ensures forall e :: e in r.enemies ==> !Strikes(r.bullets[k2], e)
    {
      var j := if k2 < k then k2 else k2 + 1;
      assert r.slots[k2] == a.slots[j] && r.bullets[k2] == a.bullets[j];
    }
  }

  lemma RemovedWaiting(a: Arena, r: Arena, k: int, snap: seq<Pos>, i: nat)
    requires Removed(a, r, k) && SlotsOrdered(a, |snap|) && SlotsOrdered(r, |snap|) && Waiting(a, snap, i)
    ensures Waiting(r, snap, i)
  {
    forall k2 | 0 <= k2 < |r.slots| && r.slots[k2] >= i ensures r.bullets[k2] == snap[r.slots[k2]] {
      var j := if k2 < k then k2 else k2 + 1;
      assert r.slots[k2] == a.slots[j] && r.bullets[k2] == a.bullets[j];
    }
  }

  lemma RemovedCurrent(a: Arena, r: Arena, k: int, i: nat, b: Pos)
    requires Removed(a, r, k) && Current(a, i, b)
    ensures Current(r, i, b)
  {
    forall k2 | 0 <= k2 < |r.slots| && k2 < |r.bullets| && r.slots[k2] == i ensures r.bullets[k2] == b {
      var j := if k2 < k then k2 else k2 + 1;
      assert r.slots[k2] == a.slots[j] && r.bullets[k2] == a.bullets[j];
    }
  }

  /** Removing one live bullet keeps the invariants of the pass. */
  lemma DropKeeps(a: Arena, b: Pos, snap: seq<Pos>, i: nat)
    requires During(a, snap, i, b)
    requires DropBullet(a, b).Done?
    ensures During(DropBullet(a, b).arena, snap, i, b)
  {
    var k := IndexOf(a.bullets, b);
    var r := DropBullet(a, b).arena;
    DropRemoves(a, b);
    RemovedOrdered(a, r, k, |snap|);
    RemovedSettled(a, r, k, snap, i);
    RemovedWaiting(a, r, k, snap, i + 1);
    RemovedCurrent(a, r, k, i, b);
  }

  lemma SparedStep(foes: seq<Pos>, j: nat, b: Pos)
    requires j < |foes|
    ensures Spared(foes[..j + 1], b) == Spared(foes[..j], b) + if Strikes(b, foes[j]) then [] else [foes[j]]
  {
    assert foes[..j + 1][..j] == foes[..j];
  }

  /** Removing the `j`-th enemy of the copy, which `b` overlaps, removes the
      entry of that enemy itself: the enemies before it in the live list are
      ones `b` misses. */
  lemma EnemyRemoval(live: seq<Pos>, b: Pos, foes: seq<Pos>, j: nat)
    requires j < |foes| && Strikes(b, foes[j])
    requires live == Spared(foes[..j], b) + foes[j..]
    ensures RemoveFirst(live, foes[j]) == Some(Spared(foes[..j + 1], b) + foes[j + 1..])
  {
    var p := Spared(foes[..j], b);
    SparedStep(foes, j, b);
    assert Spared(foes[..j + 1], b) == p + [];
    assert p + [] == p;
    assert foes[j..] == [foes[j]] + foes[j + 1..];
    assert live == p + [foes[j]] + foes[j + 1..];
    assert foes[j] !in p;
    RemoveFirstAfter(p, foes[j], foes[j + 1..]);
  }

  /** The state after one hit of the inner loop. */
  function AfterHit(a: Arena, b: Pos, foes: seq<Pos>, j: nat): Arena
    requires Aligned(a) && j < |foes| && DropBullet(a, b).Done?
    requires RemoveFirst(DropBullet(a, b).arena.enemies, foes[j]).Some?
  {
    var a1 := DropBullet(a, b).arena;
    a1.(enemies := RemoveFirst(a1.enemies, foes[j]).value, score := a1.score + KILL_SCORE)
  }

  lemma HitUnfold(a: Arena, b: Pos, foes: seq<Pos>, j: nat)
    requires Aligned(a) && j < |foes| && Strikes(b, foes[j]) && DropBullet(a, b).Done?
    requires RemoveFirst(DropBullet(a, b).arena.enemies, foes[j]).Some?
    ensures Strike(a, b, foes, j) == Strike(AfterHit(a, b, foes, j), b, foes, j + 1)
  {
  }

  /** Settled bullets stay settled when enemies disappear. */
  lemma FewerEnemiesKeep(a: Arena, es: seq<Pos>, score: int, snap: seq<Pos>, i: nat, b: Pos)
    requires During(a, snap, i, b)
    requires forall e :: e in es ==> e in a.enemies
    ensures During(a.(enemies := es, score := score), snap, i, b)
  {
  }

  lemma KillTally(a: Arena, e: Pos, es: seq<Pos>, enemies: seq<Pos>, score: int)
    requires Tally(a, enemies, score)
    requires RemoveFirst(a.enemies, e) == Some(es)
    ensures Tally(a.(enemies := es, score := a.score + KILL_SCORE), enemies, score)
    ensures forall x :: x in es ==> x in a.enemies
  {
    forall x | x in es ensures x in a.enemies {
      assert multiset(es)[x] <= multiset(a.enemies)[x];
    }
  }

  /** A hit keeps the invariants: fewer enemies can only help settled bullets,
      and the score pays for the enemy removed. */
  lemma HitKeeps(a: Arena, b: Pos, foes: seq<Pos>, j: nat, snap: seq<Pos>, i: nat, enemies: seq<Pos>, score: int)
    requires j < |foes| && Strikes(b, foes[j]) && During(a, snap, i, b) && Tally(a, enemies, score)
    requires a.enemies == Spared(foes[..j], b) + foes[j..]
    requires DropBullet(a, b).Done?
    ensures RemoveFirst(DropBullet(a, b).arena.enemies, foes[j]).Some?
    ensures var a2 := AfterHit(a, b, foes, j);
            During(a2, snap, i, b) && Tally(a2, enemies, score) && a2.enemies == Spared(foes[..j + 1], b) + foes[j + 1..]
  {
    var a1 := DropBullet(a, b).arena;
    DropKeeps(a, b, snap, i);
    EnemyRemoval(a1.enemies, b, foes, j);
    var es := Spared(foes[..j + 1], b) + foes[j + 1..];
    KillTally(a1, foes[j], es, enemies, score);
    FewerEnemiesKeep(a1, es, a1.score + KILL_SCORE, snap, i, b);
  }

  /** What the inner loop from `j` guarantees: the enemy removal never
      fails, and when it ends the invariants of the pass and the score
      accounting hold, with exactly the enemies `b` misses left. */
  predicate KeepClaim(a: Arena, b: Pos, foes: seq<Pos>, j: nat, snap: seq<Pos>, i: nat, enemies: seq<Pos>, score: int)
    requires Aligned(a) && j <= |foes|
  {
    var r := Strike(a, b, foes, j);
    && r != Crash(EnemyMissing)
    && (r.Done? ==> During(r.arena, snap, i, b) && Tally(r.arena, enemies, score) && r.arena.enemies == Spared(foes, b))
  }

  /** The inner loop keeps the invariants of the pass and the score
      accounting; the enemy removal never fails. */
  lemma {:induction false} StrikeKeeps(
    a: Arena, b: Pos, foes: seq<Pos>, j: nat, snap: seq<Pos>, i: nat, enemies: seq<Pos>, score: int)
    requires j <= |foes| && During(a, snap, i, b) && Tally(a, enemies, score)
    requires a.enemies == Spared(foes[..j], b) + foes[j..]
    ensures KeepClaim(a, b, foes, j, snap, i, enemies, score)
    decreases |foes| - j
  {
    if j == |foes| {
      EndClaim(a, b, foes, j, snap, i, enemies, score);
    } else if !Strikes(b, foes[j]) {
      MissStep(a, b, foes, j);
      StrikeKeeps(a, b, foes, j + 1, snap, i, enemies, score);
      MissClaim(a, b, foes, j, snap, i, enemies, score);
    } else if DropBullet(a, b).Done? {
      HitKeeps(a, b, foes, j, snap, i, enemies, score);
      StrikeKeeps(AfterHit(a, b, foes, j), b, foes, j + 1, snap, i, enemies, score);
      HitKeepsClaim(a, b, foes, j, snap, i, enemies, score);
    } else {
      DropClaim(a, b, foes, j, snap, i, enemies, score);
    }
  }

  lemma EndClaim(a: Arena, b: Pos, foes: seq<Pos>, j: nat, snap: seq<Pos>, i: nat, enemies: seq<Pos>, score: int)
    requires j == |foes| && During(a, snap, i, b) && Tally(a, enemies, score)
    requires a.enemies == Spared(foes[..j], b) + foes[j..]
    ensures KeepClaim(a, b, foes, j, snap, i, enemies, score)
  {
    assert foes[..j] == foes;
  }

  lemma MissStep(a: Arena, b: Pos, foes: seq<Pos>, j: nat)
    requires j < |foes| && !Strikes(b, foes[j])
    requires a.enemies == Spared(foes[..j], b) + foes[j..]
    ensures a.enemies == Spared(foes[..j + 1], b) + foes[j + 1..]
  {
    SparedStep(foes, j, b);
    assert foes[j..] == [foes[j]] + foes[j + 1..];
  }

  lemma MissClaim(a: Arena, b: Pos, foes: seq<Pos>, j: nat, snap: seq<Pos>, i: nat, enemies: seq<Pos>, score: int)
    requires Aligned(a) && j < |foes| && !Strikes(b, foes[j])
    requires KeepClaim(a, b, foes, j + 1, snap, i, enemies, score)
    ensures KeepClaim(a, b, foes, j, snap, i, enemies, score)
  {
  }

  lemma HitKeepsClaim(a: Arena, b: Pos, foes: seq<Pos>, j: nat, snap: seq<Pos>, i: nat, enemies: seq<Pos>, score: int)
    requires Aligned(a) && j < |foes| && Strikes(b, foes[j]) && DropBullet(a, b).Done?
    requires RemoveFirst(DropBullet(a, b).arena.enemies, foes[j]).Some?
    requires KeepClaim(AfterHit(a, b, foes, j), b, foes, j + 1, snap, i, enemies, score)
    ensures KeepClaim(a, b, foes, j, snap, i, enemies, score)
  {
    HitUnfold(a, b, foes, j);
  }

  lemma DropClaim(a: Arena, b: Pos, foes: seq<Pos>, j: nat, snap: seq<Pos>, i: nat, enemies: seq<Pos>, score: int)
    requires Aligned(a) && j < |foes| && Strikes(b, foes[j]) && DropBullet(a, b).Crash?
    ensures KeepClaim(a, b, foes, j, snap, i, enemies, score)
  {
  }

  /** Moving the bullet of entry `i` starts its turn. */
  lemma MoveKeeps(a: Arena, snap: seq<Pos>, i: nat)
    requires i < |snap| && Between(a, snap, i)
    ensures During(Moved(a, i, Raised(snap[i])), snap, i, Raised(snap[i]))
  {
    var b := Raised(snap[i]);
    var k := IndexOf(a.slots, i);
    var a1 := Moved(a, i, b);
    forall k2 | 0 <= k2 < |a1.slots| && a1.slots[k2] == i
      ensures a1.bullets[k2] == b
    {
      assert k >= 0 && k2 >= k;
    }
  }

  /** Removing an off-screen `b` takes out the live entry of slot `i`, if any:
      a live bullet equal to `b` before it would be a settled one, and settled
      bullets are on the screen. */
  lemma CullTakesCurrent(a: Arena, snap: seq<Pos>, i: nat, b: Pos)
    requires During(a, snap, i, b) && b.y < 0 && b in a.bullets
    ensures forall k :: 0 <= k < |a.slots| && a.slots[k] == i ==> k == IndexOf(a.bullets, b)
  {
    var m := IndexOf(a.bullets, b);
    forall k | 0 <= k < |a.slots| && a.slots[k] == i
      ensures k == m
    {
    }
  }

  /** The end of the turn of entry `i`: after the inner loop `b` overlaps no
      live enemy, and the cull leaves no live bullet above the screen. */
  lemma CullKeeps(a: Arena, snap: seq<Pos>, i: nat, b: Pos)
    requires i < |snap| && b == Raised(snap[i]) && During(a, snap, i, b)
    requires forall e :: e in a.enemies ==> !Strikes(b, e)
    ensures b.y >= 0 ==> Between(a, snap, i + 1)
    ensures b.y < 0 && DropBullet(a, b).Done? ==> Between(DropBullet(a, b).arena, snap, i + 1)
  {
    if b.y < 0 && DropBullet(a, b).Done? {
      var m := IndexOf(a.bullets, b);
      CullTakesCurrent(a, snap, i, b);
      DropKeeps(a, b, snap, i);
      var a3 := DropBullet(a, b).arena;
      forall k3 | 0 <= k3 < |a3.slots|
        ensures a3.slots[k3] != i
      {
        var src := if k3 < m then k3 else k3 + 1;
        assert a3.slots[k3] == a.slots[src];
      }
    }
  }

  /** One visit keeps the invariants of the pass and moves the boundary from
      `i` to `i + 1`; the enemy removal never fails. */
  lemma {:induction false} VisitKeeps(a: Arena, snap: seq<Pos>, i: nat, enemies: seq<Pos>, score: int)
    requires i < |snap| && Between(a, snap, i) && Tally(a, enemies, score)
    ensures Visit(a, snap, i) != Crash(EnemyMissing)
    ensures Visit(a, snap, i).Done? ==>
              Between(Visit(a, snap, i).arena, snap, i + 1) && Tally(Visit(a, snap, i).arena, enemies, score)
  {
    var b := Raised(snap[i]);
    var a1 := Moved(a, i, b);
    MoveKeeps(a, snap, i);
    assert a1.enemies == Spared(a1.enemies[..0], b) + a1.enemies[0..];
    StrikeKeeps(a1, b, a1.enemies, 0, snap, i, enemies, score);
    var s := Strike(a1, b, a1.enemies, 0);
    if s.Done? {
      CullKeeps(s.arena, snap, i, b);
    }
  }

  lemma {:induction false} SweepKeeps(a: Arena, snap: seq<Pos>, i: nat, enemies: seq<Pos>, score: int)
    requires i <= |snap| && Between(a, snap, i) && Tally(a, enemies, score)
    ensures Sweep(a, snap, i) != Crash(EnemyMissing)
    ensures Sweep(a, snap, i).Done? ==>
              Between(Sweep(a, snap, i).arena, snap, |snap|) && Tally(Sweep(a, snap, i).arena, enemies, score)
    decreases |snap| - i
  {
    if i < |snap| {
      VisitKeeps(a, snap, i, enemies, score);
      var v := Visit(a, snap, i);
      if v.Done? {
        SweepKeeps(v.arena, snap, i + 1, enemies, score);
      }
    }
  }

  /** What the bullet pass guarantees when it does not crash: the surviving
      bullets are some of the old ones, in their old order, each moved up by
      BULLET_SPEED and still on the screen; no surviving bullet overlaps a
      surviving enemy; enemies only disappear, each for KILL_SCORE. The enemy
      removal never raises. */
  lemma BulletPassSound(bullets: seq<Pos>, enemies: seq<Pos>, score: int)
    ensures BulletPass(bullets, enemies, score) != Crash(EnemyMissing)
    ensures BulletPass(bullets, enemies, score).Done? ==>
              var r := BulletPass(bullets, enemies, score).arena;
              && |r.bullets| <= |bullets|
              && |r.slots| == |r.bullets|
              && (forall k1, k2 :: 0 <= k1 < k2 < |r.slots| ==> r.slots[k1] < r.slots[k2])
              && (forall k :: 0 <= k < |r.bullets| ==>
                    r.slots[k] < |bullets| && r.bullets[k] == Raised(bullets[r.slots[k]]) && r.bullets[k].y >= 0)
              && (forall p, e :: p in r.bullets && e in r.enemies ==> !Strikes(p, e))
              && multiset(r.enemies) <= multiset(enemies)
              && r.score == score + KILL_SCORE * (|enemies| - |r.enemies|)
  {
    var a := Arena(bullets, Slots(|bullets|), enemies, score);
    assert Between(a, bullets, 0);
    SweepKeeps(a, bullets, 0, enemies, score);
  }

  // ------------------------------------------------ what the pass keeps

  /** An enemy that `b` does not overlap keeps its number of copies through
      the inner loop: every enemy removal is of an enemy `b` overlaps. */
  lemma {:induction false} StrikeSpares(a: Arena, b: Pos, foes: seq<Pos>, j: nat, e: Pos)
    requires Aligned(a) && j <= |foes| && !Strikes(b, e)
    ensures Strike(a, b, foes, j).Done? ==> multiset(Strike(a, b, foes, j).arena.enemies)[e] == multiset(a.enemies)[e]
    decreases |foes| - j
  {
    if j < |foes| {
      if !Strikes(b, foes[j]) {
        StrikeSpares(a, b, foes, j + 1, e);
      } else if DropBullet(a, b).Done? && RemoveFirst(DropBullet(a, b).arena.enemies, foes[j]).Some? {
        var a2 := AfterHit(a, b, foes, j);
        HitUnfold(a, b, foes, j);
        StrikeSpares(a2, b, foes, j + 1, e);
        assert foes[j] != e;
        assert multiset(a2.enemies)[e] == multiset(a.enemies)[e];
      }
    }
  }

  lemma {:induction false} SweepSpares(a: Arena, snap: seq<Pos>, i: nat, e: Pos)
    requires Aligned(a) && i <= |snap|
    requires forall k :: i <= k < |snap| ==> !Strikes(Raised(snap[k]), e)
    ensures Sweep(a, snap, i).Done? ==> multiset(Sweep(a, snap, i).arena.enemies)[e] == multiset(a.enemies)[e]
    decreases |snap| - i
  {
    if i < |snap| {
      var b := Raised(snap[i]);
      var a1 := Moved(a, i, b);
      StrikeSpares(a1, b, a1.enemies, 0, e);
      var v := Visit(a, snap, i);
      if v.Done? {
        SweepSpares(v.arena, snap, i + 1, e);
      }
    }
  }

  /** An enemy that no bullet overlaps once moved survives the pass: it
      keeps every copy it had in the list. */
  lemma BulletPassSpares(bullets: seq<Pos>, enemies: seq<Pos>, score: int, e: Pos)
    requires forall i :: 0 <= i < |bullets| ==> !Strikes(Raised(bullets[i]), e)
    ensures BulletPass(bullets, enemies, score).Done? ==>
              multiset(BulletPass(bullets, enemies, score).arena.enemies)[e] == multiset(enemies)[e]
  {
    SweepSpares(Arena(bullets, Slots(|bullets|), enemies, score), bullets, 0, e);
  }

  /** Slots of the entries before `i` of the copy that a pass without hits
      keeps: those whose moved bullet is still on the screen. */
  function KeptSlots(snap: seq<Pos>, i: nat): (s: seq<nat>)
    requires i <= |snap|
    ensures |s| == |Flown(snap[..i])| && forall k :: 0 <= k < |s| ==> s[k] < i
  {
    if i == 0 then []
    else
      assert snap[..i][..i - 1] == snap[..i - 1];
      KeptSlots(snap, i - 1) + if Raised(snap[i - 1]).y < 0 then [] else [i - 1]
  }

  /** The state of a pass without hits before the visit of entry `i`. */
  predicate Calm(a: Arena, snap: seq<Pos>, i: nat, enemies: seq<Pos>, score: int)
    requires i <= |snap|
  {
    && a.enemies == enemies && a.score == score
    && a.bullets == Flown(snap[..i]) + snap[i..]
    && a.slots == KeptSlots(snap, i) + Slots(|snap|)[i..]
  }

  lemma FlownStep(snap: seq<Pos>, i: nat)
    requires i < |snap|
    ensures Flown(snap[..i + 1]) == Flown(snap[..i]) + if Raised(snap[i]).y < 0 then [] else [Raised(snap[i])]
  {
    assert snap[..i + 1][..i] == snap[..i];
  }

  /** An inner loop over enemies the bullet misses changes nothing. */
  lemma {:induction false} StrikeMisses(a: Arena, b: Pos, foes: seq<Pos>, j: nat)
    requires Aligned(a) && j <= |foes|
    requires forall k :: j <= k < |foes| ==> !Strikes(b, foes[k])
    ensures Strike(a, b, foes, j) == Done(a)
    decreases |foes| - j
  {
    if j < |foes| {
      StrikeMisses(a, b, foes, j + 1);
    }
  }

  /** The slots from `i` on are `i` followed by those from `i + 1` on. */
  lemma SlotsFrom(n: nat, i: nat)
    requires i < n
    ensures Slots(n)[i..] == [i] + Slots(n)[i + 1..]
  {
  }

  /** Replacing the entry right after `f` replaces the middle of `f + [x] + t`. */
  lemma UpdateMiddle<T>(f: seq<T>, x: T, t: seq<T>, y: T)
    ensures (f + [x] + t)[|f| := y] == f + [y] + t
  {
  }

  /** The move of entry `i` in a pass without hits updates the entry right
      after the bullets kept so far. */
  lemma CalmMove(a: Arena, snap: seq<Pos>, i: nat, enemies: seq<Pos>, score: int)
    requires i < |snap| && Calm(a, snap, i, enemies, score)
    ensures Moved(a, i, Raised(snap[i]))
            == Arena(Flown(snap[..i]) + [Raised(snap[i])] + snap[i + 1..],
                     KeptSlots(snap, i) + [i] + Slots(|snap|)[i + 1..], enemies, score)
  {
    CalmShape(a, snap, i, enemies, score);
    MoveAt(Flown(snap[..i]), snap[i], snap[i + 1..], KeptSlots(snap, i), i, Slots(|snap|)[i + 1..],
           enemies, score, Raised(snap[i]));
  }

  /** A calm arena splits around entry `i`. */
  lemma CalmShape(a: Arena, snap: seq<Pos>, i: nat, enemies: seq<Pos>, score: int)
    requires i < |snap| && Calm(a, snap, i, enemies, score)
    ensures a == Arena(Flown(snap[..i]) + [snap[i]] + snap[i + 1..],
                       KeptSlots(snap, i) + [i] + Slots(|snap|)[i + 1..], enemies, score)
  {
    var f, p, t, rest := Flown(snap[..i]), KeptSlots(snap, i), snap[i + 1..], Slots(|snap|)[i + 1..];
    SlotsFrom(|snap|, i);
    assert snap[i..] == [snap[i]] + t;
    Regroup(f, snap[i], t);
    Regroup(p, i, rest);
  }

  /** Concatenation regrouped around one element. */
  lemma Regroup<T>(f: seq<T>, x: T, t: seq<T>)
    ensures f + ([x] + t) == f + [x] + t
  {
  }

  /** Moving the bullet of slot `i`, whose entry follows the kept ones. */
  lemma MoveAt(f: seq<Pos>, x: Pos, t: seq<Pos>, p: seq<nat>, i: nat, rest: seq<nat>, enemies: seq<Pos>, score: int, y: Pos)
    requires |f| == |p| && |t| == |rest| && forall k :: 0 <= k < |p| ==> p[k] < i
    ensures Moved(Arena(f + [x] + t, p + [i] + rest, enemies, score), i, y) == Arena(f + [y] + t, p + [i] + rest, enemies, score)
  {
    SlotAfterKept(p, i, rest);
    UpdateMiddle(f, x, t, y);
  }

  /** Slot `i` sits right after the slots kept before it. */
  lemma SlotAfterKept(p: seq<nat>, i: nat, rest: seq<nat>)
    requires forall k :: 0 <= k < |p| ==> p[k] < i
    ensures IndexOf(p + [i] + rest, i) == |p|
  {
    var s := p + [i] + rest;
    assert s[|p|] == i;
    assert s[..|p|] == p;
  }

  /** The cull of an off-screen bullet in a pass without hits removes its
      own entry: the bullets kept before it are all on the screen. */
  lemma CalmCull(f: seq<Pos>, b: Pos, t: seq<Pos>, p: seq<nat>, i: nat, rest: seq<nat>, enemies: seq<Pos>, score: int)
    requires b.y < 0 && (forall q :: q in f ==> q.y >= 0) && |p| == |f| && |rest| == |t|
    ensures DropBullet(Arena(f + [b] + t, p + [i] + rest, enemies, score), b) == Done(Arena(f + t, p + rest, enemies, score))
  {
    var s := f + [b] + t;
    assert s[|f|] == b;
    assert s[..|f|] == f;
    assert IndexOf(s, b) == |f|;
    assert s[|f| + 1..] == t;
    assert (p + [i] + rest)[..|f|] == p;
    assert (p + [i] + rest)[|f| + 1..] == rest;
  }

  /** One visit of a pass without hits. */
  lemma CalmVisit(a: Arena, snap: seq<Pos>, i: nat, enemies: seq<Pos>, score: int)
    requires i < |snap| && Calm(a, snap, i, enemies, score)
    requires forall e :: e in enemies ==> !Strikes(Raised(snap[i]), e)
    ensures Visit(a, snap, i).Done? && Calm(Visit(a, snap, i).arena, snap, i + 1, enemies, score)
  {
    var b := Raised(snap[i]);
    var f, p, t, rest := Flown(snap[..i]), KeptSlots(snap, i), snap[i + 1..], Slots(|snap|)[i + 1..];
    var a1 := Moved(a, i, b);
    CalmMove(a, snap, i, enemies, score);
    StrikeMisses(a1, b, a1.enemies, 0);
    assert Visit(a, snap, i) == if b.y < 0 then DropBullet(a1, b) else Done(a1);
    FlownStep(snap, i);
    assert KeptSlots(snap, i + 1) == p + if b.y < 0 then [] else [i];
    var f1, p1 := Flown(snap[..i + 1]), KeptSlots(snap, i + 1);
    if b.y < 0 {
      CalmCull(f, b, t, p, i, rest, enemies, score);
      assert f1 == f + [] == f && p1 == p + [] == p;
      assert Visit(a, snap, i) == Done(Arena(f1 + t, p1 + rest, enemies, score));
    } else {
      assert f1 == f + [b] && p1 == p + [i];
      assert f + [b] + t == f1 + t && p + [i] + rest == p1 + rest;
      assert Visit(a, snap, i) == Done(Arena(f1 + t, p1 + rest, enemies, score));
    }
  }

  lemma {:induction false} CalmSweep(a: Arena, snap: seq<Pos>, i: nat, enemies: seq<Pos>, score: int)
    requires i <= |snap| && Calm(a, snap, i, enemies, score)
    requires forall k, e :: i <= k < |snap| && e in enemies ==> !Strikes(Raised(snap[k]), e)
    ensures Sweep(a, snap, i) == Done(Arena(Flown(snap), KeptSlots(snap, |snap|), enemies, score))
    decreases |snap| - i
  {
    if i < |snap| {
      CalmVisit(a, snap, i, enemies, score);
      CalmSweep(Visit(a, snap, i).arena, snap, i + 1, enemies, score);
    } else {
      assert snap[..i] == snap;
    }
  }

  /** A pass in which no bullet, once moved, overlaps an enemy keeps the
      enemies and the score, and keeps exactly the moved bullets still on
      the screen, in order: each cull removes the bullet's own entry. */
  lemma BulletPassMisses(bullets: seq<Pos>, enemies: seq<Pos>, score: int)
    requires forall i, e :: 0 <= i < |bullets| && e in enemies ==> !Strikes(Raised(bullets[i]), e)
    ensures var o := BulletPass(bullets, enemies, score);
            o.Done? && o.arena.bullets == Flown(bullets) && o.arena.enemies == enemies && o.arena.score == score
  {
    var a := Arena(bullets, Slots(|bullets|), enemies, score);
    assert bullets[..0] == [] && bullets[0..] == bullets && Slots(|bullets|)[0..] == Slots(|bullets|);
    CalmSweep(a, bullets, 0, enemies, score);
  }

  /** Bullets the pass keeps stay in flight: they only move up, and those
      that would leave the top of the screen are gone. */
  lemma BulletPassInFlight(bullets: seq<Pos>, enemies: seq<Pos>, score: int)
    requires forall p :: p in bullets ==> InFlight(p)
    ensures BulletPass(bullets, enemies, score).Done? ==>
              var r := BulletPass(bullets, enemies, score).arena;
              && |r.bullets| <= |bullets|
              && forall p :: p in r.bullets ==> InFlight(p)
  {
    BulletPassSound(bullets, enemies, score);
    if BulletPass(bullets, enemies, score).Done? {
      var r := BulletPass(bullets, enemies, score).arena;
      forall p | p in r.bullets ensures InFlight(p) {
        var k :| 0 <= k < |r.bullets| && r.bullets[k] == p;
        assert bullets[r.slots[k]] in bullets;
      }
    }
  }

  /** The enemies the pass keeps are enemies it was given, and no more of
      them than it was given. */
  lemma BulletPassEnemies(bullets: seq<Pos>, enemies: seq<Pos>, score: int)
    ensures BulletPass(bullets, enemies, score).Done? ==>
              var r := BulletPass(bullets, enemies, score).arena;
              && (forall e :: e in r.enemies ==> e in enemies)
              && |r.enemies| <= |enemies|
  {
    BulletPassSound(bullets, enemies, score);
    var o := BulletPass(bullets, enemies, score);
    if o.Done? {
      SubMultiset(o.arena.enemies, enemies);
    }
  }

  /** The score rises by KILL_SCORE for each enemy the pass destroyed, so
      it never falls and stays a multiple of KILL_SCORE. */
  lemma BulletPassScore(bullets: seq<Pos>, enemies: seq<Pos>, score: int)
    requires score % KILL_SCORE == 0
    ensures BulletPass(bullets, enemies, score).Done? ==>
              var r := BulletPass(bullets, enemies, score).arena;
              score <= r.score && r.score % KILL_SCORE == 0
  {
    BulletPassSound(bullets, enemies, score);
    var o := BulletPass(bullets, enemies, score);
    if o.Done? {
      SubMultiset(o.arena.enemies, enemies);
      KillsPay(score, |enemies| - |o.arena.enemies|);
    }
  }

  /** A sub-multiset of a sequence's elements draws only on its elements
      and is no larger. */
  lemma SubMultiset(kept: seq<Pos>, all: seq<Pos>)
    requires multiset(kept) <= multiset(all)
    ensures forall e :: e in kept ==> e in all
    ensures |kept| <= |all|
  {
    forall e | e in kept ensures e in all {
      assert multiset(kept)[e] <= multiset(all)[e];
    }
    assert multiset(all) == multiset(kept) + (multiset(all) - multiset(kept));
  }

  /** Paying KILL_SCORE per kill keeps a multiple of KILL_SCORE. */
  lemma KillsPay(score: int, kills: nat)
    requires score % KILL_SCORE == 0
    ensures (score + KILL_SCORE * kills) % KILL_SCORE == 0
  {
    assert score + KILL_SCORE * kills == KILL_SCORE * (score / KILL_SCORE + kills);
  }

  /** The inner loop from `j` crashes exactly when `b` overlaps more of the
      remaining enemies than there are live bullets equal to `b`; otherwise
      one such bullet goes per overlap, the overlapped enemies go, and each
      pays KILL_SCORE. */
  predicate CrashClaim(a: Arena, b: Pos, foes: seq<Pos>, j: nat)
    requires Aligned(a) && j <= |foes|
  {
    var r := Strike(a, b, foes, j);
    var m := multiset(a.bullets);
    var n := Struck(foes[j..], b);
    && (r.Crash? <==> n > m[b])
    && (r.Done? ==>
          && multiset(r.arena.bullets) == m[b := m[b] - n]
          && r.arena.enemies == Spared(foes, b)
          && r.arena.score == a.score + KILL_SCORE * n)
  }

  lemma {:induction false} StrikeCrashesIff(a: Arena, b: Pos, foes: seq<Pos>, j: nat)
    requires Aligned(a) && j <= |foes|
    requires a.enemies == Spared(foes[..j], b) + foes[j..]
    ensures CrashClaim(a, b, foes, j)
    decreases |foes| - j, 1
  {
    if j == |foes| {
      EndCrash(a, b, foes, j);
    } else if !Strikes(b, foes[j]) {
      MissCrash(a, b, foes, j);
    } else if DropBullet(a, b).Done? {
      HitCrash(a, b, foes, j);
    } else {
      DropCrash(a, b, foes, j);
    }
  }

  /** The hit case of `StrikeCrashesIff`, where a live bullet equal to `b`
      is there to remove. */
  lemma {:induction false} HitCrash(a: Arena, b: Pos, foes: seq<Pos>, j: nat)
    requires Aligned(a) && j < |foes| && Strikes(b, foes[j]) && DropBullet(a, b).Done?
    requires a.enemies == Spared(foes[..j], b) + foes[j..]
    ensures CrashClaim(a, b, foes, j)
    decreases |foes| - j, 0
  {
    EnemyRemoval(DropBullet(a, b).arena.enemies, b, foes, j);
    HitUnfold(a, b, foes, j);
    StrikeCrashesIff(AfterHit(a, b, foes, j), b, foes, j + 1);
    StruckStep(foes, j, b);
    HitClaim(a, b, foes, j);
  }

  /** At the end of the enemies nothing more is struck. */
  lemma EndCrash(a: Arena, b: Pos, foes: seq<Pos>, j: nat)
    requires Aligned(a) && j == |foes|
    requires a.enemies == Spared(foes[..j], b) + foes[j..]
    ensures CrashClaim(a, b, foes, j)
  {
    assert foes[..j] == foes;
    assert foes[j..] == [];
    assert multiset(a.bullets)[b := multiset(a.bullets)[b]] == multiset(a.bullets);
  }

  /** The miss case of `StrikeCrashesIff`: the claim for a missed enemy at
      `j` is the claim after it. */
  lemma {:induction false} MissCrash(a: Arena, b: Pos, foes: seq<Pos>, j: nat)
    requires Aligned(a) && j < |foes| && !Strikes(b, foes[j])
    requires a.enemies == Spared(foes[..j], b) + foes[j..]
    ensures CrashClaim(a, b, foes, j)
    decreases |foes| - j, 0
  {
    MissStep(a, b, foes, j);
    StrikeCrashesIff(a, b, foes, j + 1);
    MissCrashStep(a, b, foes, j);
  }

  /** The claim for a missed enemy at `j` is the claim after it. */
  lemma MissCrashStep(a: Arena, b: Pos, foes: seq<Pos>, j: nat)
    requires Aligned(a) && j < |foes| && !Strikes(b, foes[j])
    requires CrashClaim(a, b, foes, j + 1)
    ensures CrashClaim(a, b, foes, j)
  {
    StruckStep(foes, j, b);
  }

  /** A hit with no live bullet equal to `b` left crashes at once. */
  lemma DropCrash(a: Arena, b: Pos, foes: seq<Pos>, j: nat)
    requires Aligned(a) && j < |foes| && Strikes(b, foes[j]) && DropBullet(a, b).Crash?
    ensures CrashClaim(a, b, foes, j)
  {
    StruckStep(foes, j, b);
    assert multiset(a.bullets)[b] == 0;
  }

  /** The claim for a hit at `j` follows from the claim after it. */
  lemma HitClaim(a: Arena, b: Pos, foes: seq<Pos>, j: nat)
    requires Aligned(a) && j < |foes| && Strikes(b, foes[j]) && DropBullet(a, b).Done?
    requires RemoveFirst(DropBullet(a, b).arena.enemies, foes[j]).Some?
    requires Struck(foes[j..], b) == 1 + Struck(foes[j + 1..], b)
    requires CrashClaim(AfterHit(a, b, foes, j), b, foes, j + 1)
    ensures CrashClaim(a, b, foes, j)
  {
    HitUnfold(a, b, foes, j);
    var m := multiset(a.bullets);
    var a2 := AfterHit(a, b, foes, j);
    assert multiset(a2.bullets) == m - multiset{b};
    if Strike(a2, b, foes, j + 1).Done? {
      RemovedThenSet(m, b, m[b] - 1 - Struck(foes[j + 1..], b));
    }
  }

  lemma StruckStep(foes: seq<Pos>, j: nat, b: Pos)
    requires j < |foes|
    ensures Struck(foes[j..], b) == (if Strikes(b, foes[j]) then 1 else 0) + Struck(foes[j + 1..], b)
  {
    assert foes[j..][1..] == foes[j + 1..];
  }

  lemma RemovedThenSet(m: multiset<Pos>, b: Pos, n: nat)
    requires b in m
    ensures (m - multiset{b})[b := n] == m[b := n]
  {
    var l, r := (m - multiset{b})[b := n], m[b := n];
    forall y ensures l[y] == r[y] {
      if y != b {
        assert l[y] == (m - multiset{b})[y] == m[y];
      }
    }
  }

  // ------------------------------------------------------------ scenarios

  /** A bullet that reaches an enemy is removed with it, for KILL_SCORE. */
  lemma SingleHitScores()
    ensures BulletPass([Pos(100, 72)], [Pos(100, 60)], 0) == Done(Arena([], [], [], 20))
  {
    var a := Arena([Pos(100, 72)], [0], [Pos(100, 60)], 0);
    assert Slots(1) == [0];
    assert Strikes(Pos(100, 65), Pos(100, 60));
    assert RemoveFirst([Pos(100, 60)], Pos(100, 60)) == Some([]);
  }

  /** A lone bullet overlapping two enemies at once crashes the frame: its
      second removal finds no equal bullet. */
  lemma DoubleHitCrashes()
    ensures BulletPass([Pos(100, 100)], [Pos(100, 60), Pos(80, 60)], 0) == Crash(BulletMissing)
  {
    var foes := [Pos(100, 60), Pos(80, 60)];
    var b := Pos(100, 93);
    var a1 := Arena([b], [0], foes, 0);
    assert Slots(1) == [0];
    assert Moved(Arena([Pos(100, 100)], [0], foes, 0), 0, b) == a1;
    assert Strikes(b, foes[0]) && Strikes(b, foes[1]);
    assert DropBullet(a1, b) == Done(Arena([], [], foes, 0));
    RemoveHead(foes);
    var a2 := Arena([], [], [foes[1]], 20);
    assert Strike(a1, b, foes, 0) == Strike(a2, b, foes, 1);
    assert DropBullet(a2, b) == Crash(BulletMissing);
    assert Strike(a2, b, foes, 1) == Crash(BulletMissing);
  }

  lemma RemoveHead(s: seq<Pos>)
    requires |s| > 0
    ensures RemoveFirst(s, s[0]) == Some(s[1..])
  {
    assert IndexOf(s, s[0]) == 0;
    assert s[..0] + s[1..] == s[1..];
  }

  /** The same double hit does not crash when an unmoved bullet further down
      the list equals the moved one: its object is taken out of the list in
      place of the second removal, both enemies are destroyed, and that
      detached bullet is still moved and tested on its own turn. */
  lemma TwinAbsorbsDoubleHit()
    ensures BulletPass([Pos(100, 100), Pos(100, 93)], [Pos(100, 60), Pos(80, 60)], 0)
            == Done(Arena([], [], [], 40))
  {
    var snap := [Pos(100, 100), Pos(100, 93)];
    var foes := [Pos(100, 60), Pos(80, 60)];
    assert Slots(2) == [0, 1];
    var a0 := Arena(snap, [0, 1], foes, 0);
    var a3 := Arena([], [], [], 40);
    TwinFirstVisit();
    TwinSecondVisit();
    assert Sweep(a3, snap, 2) == Done(a3);
    assert Sweep(a3, snap, 1) == Done(a3);
    assert Sweep(a0, snap, 0) == Done(a3);
  }

  /** The first bullet, moved onto its twin's position, destroys both enemies
      and takes both entries of the list with it. */
  lemma TwinFirstVisit()
    ensures Visit(Arena([Pos(100, 100), Pos(100, 93)], [0, 1], [Pos(100, 60), Pos(80, 60)], 0),
                  [Pos(100, 100), Pos(100, 93)], 0)
            == Done(Arena([], [], [], 40))
  {
    var b := Pos(100, 93);
    var foes := [Pos(100, 60), Pos(80, 60)];
    assert Moved(Arena([Pos(100, 100), b], [0, 1], foes, 0), 0, b) == Arena([b, b], [0, 1], foes, 0);
    TwinFirstHit();
    TwinSecondHit();
  }

  /** The first overlap removes the moved bullet's own entry and the first enemy. */
  lemma TwinFirstHit()
    ensures Strike(Arena([Pos(100, 93), Pos(100, 93)], [0, 1], [Pos(100, 60), Pos(80, 60)], 0),
                   Pos(100, 93), [Pos(100, 60), Pos(80, 60)], 0)
            == Strike(Arena([Pos(100, 93)], [1], [Pos(80, 60)], 20), Pos(100, 93), [Pos(100, 60), Pos(80, 60)], 1)
  {
    var foes := [Pos(100, 60), Pos(80, 60)];
    var b := Pos(100, 93);
    var a1 := Arena([b, b], [0, 1], foes, 0);
    assert Strikes(b, foes[0]);
    assert DropBullet(a1, b) == Done(Arena([b], [1], foes, 0));
    RemoveHead(foes);
  }

  /** The second overlap removes the unvisited twin's entry and the second enemy. */
  lemma TwinSecondHit()
    ensures Strike(Arena([Pos(100, 93)], [1], [Pos(80, 60)], 20), Pos(100, 93), [Pos(100, 60), Pos(80, 60)], 1)
            == Done(Arena([], [], [], 40))
  {
    var foes := [Pos(100, 60), Pos(80, 60)];
    var b := Pos(100, 93);
    var a2 := Arena([b], [1], [foes[1]], 20);
    assert Strikes(b, foes[1]);
    assert DropBullet(a2, b) == Done(Arena([], [], [foes[1]], 20));
    RemoveHead([foes[1]]);
    var a3 := Arena([], [], [], 40);
    assert Strike(a2, b, foes, 1) == Strike(a3, b, foes, 2);
  }

  /** The detached twin still moves, to y = 86, and meets no enemy. */
  lemma TwinSecondVisit()
    ensures Visit(Arena([], [], [], 40), [Pos(100, 100), Pos(100, 93)], 1) == Done(Arena([], [], [], 40))
  {
    var a3 := Arena([], [], [], 40);
    assert Moved(a3, 1, Pos(100, 86)) == a3;
  }

  /** The inner loop of a bullet's turn (`for enemy in enemies[:]`), for the
      moved bullet `b`, on the live lists `live` (with their `slots`) and
      `foesLive` and the score `tally`: it computes exactly `Strike` over a
      copy of the live enemies. */
  method StrikeEnemies(live: seq<Pos>, slots: seq<nat>, foesLive: seq<Pos>, tally: int, b: Pos)
    returns (fault: Option<Fault>, live': seq<Pos>, slots': seq<nat>, foesLive': seq<Pos>, tally': int)
    requires |slots| == |live|
    ensures var o := Strike(Arena(live, slots, foesLive, tally), b, foesLive, 0);
            && (fault.None? <==> o.Done?)
            && (o.Crash? ==> fault == Some(o.fault))
            && (o.Done? ==> Arena(live', slots', foesLive', tally') == o.arena)
  {
    ghost var start := Arena(live, slots, foesLive, tally);
    var foes := foesLive;
    live', slots', foesLive', tally' := live, slots, foesLive, tally;
    var j := 0;
    while j < |foes|
      invariant 0 <= j <= |foes| && |slots'| == |live'|
      invariant Strike(Arena(live', slots', foesLive', tally'), b, foes, j) == Strike(start, b, foes, 0)
    {
      ghost var cur := Arena(live', slots', foesLive', tally');
      if Strikes(b, foes[j]) {
        var kb := IndexOf(live', b);
        if kb < 0 {
          assert Strike(cur, b, foes, j) == Crash(BulletMissing);
          return Some(BulletMissing), live', slots', foesLive', tally';
        }
        live', slots' := live'[..kb] + live'[kb + 1..], slots'[..kb] + slots'[kb + 1..];
        assert DropBullet(cur, b) == Done(Arena(live', slots', foesLive', tally'));
        var rest := RemoveFirst(foesLive', foes[j]);
        if rest.None? {
          assert Strike(cur, b, foes, j) == Crash(EnemyMissing);
          return Some(EnemyMissing), live', slots', foesLive', tally';
        }
        foesLive' := rest.value;
        tally' := tally' + 20;
        HitUnfold(cur, b, foes, j);
        assert AfterHit(cur, b, foes, j) == Arena(live', slots', foesLive', tally');
      }
      j := j + 1;
    }
    return None, live', slots', foesLive', tally';
  }

  /** The bullet loop of a frame (`for bullet in bullets[:]`), on the live
      lists and the score: `snap` is the copy being walked, and `slots`
      gives, for each live bullet, the entry of `snap` holding the same
      object. It computes exactly `BulletPass`: `fault` is the `ValueError`
      of a failing `list.remove`, which ends the pass; otherwise the live
      bullets, the live enemies and the score it leaves. */
  method SweepBullets(bullets: seq<Pos>, enemies: seq<Pos>, score: int)
    returns (fault: Option<Fault>, live: seq<Pos>, foesLive: seq<Pos>, tally: int)
    ensures var o := BulletPass(bullets, enemies, score);
            && (fault.None? <==> o.Done?)
            && (o.Crash? ==> fault == Some(o.fault))
            && (o.Done? ==> live == o.arena.bullets && foesLive == o.arena.enemies && tally == o.arena.score)
  {
    var snap, slots := bullets, Slots(|bullets|);
    live, foesLive, tally := bullets, enemies, score;
    var i := 0;
    while i < |snap|
      invariant 0 <= i <= |snap| && |slots| == |live|
      invariant Sweep(Arena(live, slots, foesLive, tally), snap, i) == BulletPass(bullets, enemies, score)
    {
      ghost var start := Arena(live, slots, foesLive, tally);
      // `bullet['y'] -= BULLET_SPEED` moves the object wherever it is live.
      var b := Raised(snap[i]);
      var k := IndexOf(slots, i);
      if k >= 0 {
        live := live[k := b];
      }
      ghost var moved := Arena(live, slots, foesLive, tally);
      assert moved == Moved(start, i, b);
      fault, live, slots, foesLive, tally := StrikeEnemies(live, slots, foesLive, tally, b);
      SweepUnfold(start, snap, i);
      if fault.Some? {
        return;
      }
      ghost var struck := Arena(live, slots, foesLive, tally);
      assert Strike(moved, b, moved.enemies, 0) == Done(struck);
      if b.y < 0 {
        var kb := IndexOf(live, b);
        if kb < 0 {
          return Some(BulletMissing), live, foesLive, tally;
        }
        live, slots := live[..kb] + live[kb + 1..], slots[..kb] + slots[kb + 1..];
        assert DropBullet(struck, b) == Done(Arena(live, slots, foesLive, tally));
      }
      assert Visit(start, snap, i) == Done(Arena(live, slots, foesLive, tally));
      i := i + 1;
    }
    return None, live, foesLive, tally;
  }
}
