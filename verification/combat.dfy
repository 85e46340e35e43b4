/** The collision engine: once per tick every live bullet is tested against the
    ship of the other player; a hit marks that ship dead and ends the round.
    Bullets are never consumed by a hit. */
module Combat {
  import opened Geometry
  import opened Entities

  /** Some bullet fired by the given owner touches the target ship. */
  ghost predicate HitBy(live: seq<Bullet>, target: Player, byPlayer1: bool) {
    exists k :: 0 <= k < |live| && live[k].isPlayer1 == byPlayer1
      && BulletTouchingPlayer(live[k].position, target.position)
  }

  /** Tests the first `bulletCount` bullets against both ships. A first-player
      bullet can only kill the second player and vice versa; the flags only
      ever go from false to true; positions, headings and bullets are left
      alone. */
  method CheckCollisions(player1: Player, player2: Player, bullets: seq<Bullet>, bulletCount: int, gameOver: bool)
    returns (p1: Player, p2: Player, over: bool)
    requires 0 <= bulletCount <= |bullets|
    ensures p1.position == player1.position && p1.direction == player1.direction
    ensures p2.position == player2.position && p2.direction == player2.direction
    ensures p1.isDead <==> player1.isDead || HitBy(bullets[..bulletCount], player1, false)
    ensures p2.isDead <==> player2.isDead || HitBy(bullets[..bulletCount], player2, true)
    ensures over <==> gameOver || HitBy(bullets[..bulletCount], player1, false)
                               || HitBy(bullets[..bulletCount], player2, true)
  {
    p1, p2, over := player1, player2, gameOver;
    var i := 0;
    while i < bulletCount
      invariant 0 <= i <= bulletCount
      invariant p1.position == player1.position && p1.direction == player1.direction
      invariant p2.position == player2.position && p2.direction == player2.direction
      invariant p1.isDead <==> player1.isDead || HitBy(bullets[..i], player1, false)
      invariant p2.isDead <==> player2.isDead || HitBy(bullets[..i], player2, true)
      invariant over <==> gameOver || HitBy(bullets[..i], player1, false) || HitBy(bullets[..i], player2, true)
    {
      HitByExtend(bullets, i, player1, false);
      HitByExtend(bullets, i, player2, true);
      if bullets[i].isPlayer1 && BulletTouchingPlayer(bullets[i].position, p2.position) {
        p2 := p2.(isDead := true);
        over := true;
      }
      if !bullets[i].isPlayer1 && BulletTouchingPlayer(bullets[i].position, p1.position) {
        p1 := p1.(isDead := true);
        over := true;
      }
      i := i + 1;
    }
    assert bullets[..bulletCount] == bullets[..i];
  }

  /** Looking at one more bullet adds exactly that bullet's hit. */
  lemma HitByExtend(bullets: seq<Bullet>, i: int, target: Player, byPlayer1: bool)
    requires 0 <= i < |bullets|
    ensures HitBy(bullets[..i + 1], target, byPlayer1) <==>
      HitBy(bullets[..i], target, byPlayer1)
      || (bullets[i].isPlayer1 == byPlayer1 && BulletTouchingPlayer(bullets[i].position, target.position))
  {
    var prefix := bullets[..i + 1];
    if HitBy(prefix, target, byPlayer1) {
      var k :| 0 <= k < |prefix| && prefix[k].isPlayer1 == byPlayer1
        && BulletTouchingPlayer(prefix[k].position, target.position);
      if k < i {
        assert bullets[..i][k] == prefix[k];
      }
    }
    if HitBy(bullets[..i], target, byPlayer1) {
      var k :| 0 <= k < i && bullets[..i][k].isPlayer1 == byPlayer1
        && BulletTouchingPlayer(bullets[..i][k].position, target.position);
      assert prefix[k] == bullets[..i][k];
    }
    if bullets[i].isPlayer1 == byPlayer1 && BulletTouchingPlayer(bullets[i].position, target.position) {
      assert prefix[i] == bullets[i];
    }
  }

  /** Only the other owner's bullets count against a ship: when every
      bullet belongs to one owner, no ship is hit by the other owner, and a
      hit by an owner is a touching bullet of that owner. */
  lemma OwnBulletsHarmless(live: seq<Bullet>, target: Player, owner: bool)
    ensures (forall k :: 0 <= k < |live| ==> live[k].isPlayer1 == owner) ==> !HitBy(live, target, !owner)
    ensures HitBy(live, target, owner) <==>
      exists k :: 0 <= k < |live| && live[k].isPlayer1 == owner
        && BulletTouchingPlayer(live[k].position, target.position)
  {
  }
}
