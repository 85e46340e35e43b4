/** The two kinds of simulated entity: ships ("players") and bullets. */
module Entities {
  import opened Geometry

  const PLAYERSPEED: real := 100.0
  const PLAYERROTATIONSPEED: real := 5.0
  const BULLETSPEED: real := 150.0

  /** The cosine and sine of a heading. */
  datatype CosSin = CosSin(cos: real, sin: real)

  /** The trigonometry of the platform, supplied by the caller: maps a heading
      in radians to its cosine and sine. Its values are not modelled. */
  type Trig = real -> CosSin

  /** A ship: position, heading in radians (0 points along +x, and since
      screen y grows downwards a positive heading turns towards the top of
      the screen), and whether it has been hit. */
  datatype Player = Player(position: Point, direction: real, isDead: bool)

  /** A bullet: position, velocity in pixels per second, and its owner
      (true when the first player fired it). */
  datatype Bullet = Bullet(position: Point, xVelocity: real, yVelocity: real, isPlayer1: bool)

  /** An all-zero slot: what the zero-initialised state holds in unused slots,
      and what a removal writes into the last slot. */
  const ZeroBullet := Bullet(Point(0.0, 0.0), 0.0, 0.0, false)

  /** The bullet a player fires: at the player's position, moving along the
      heading at BULLETSPEED (the y component is negated for screen space). */
  function Fired(player: Player, isPlayer1: bool, trig: Trig): (b: Bullet)
    ensures b.position == player.position && b.isPlayer1 == isPlayer1
    ensures trig(player.direction) == CosSin(1.0, 0.0) ==> b.xVelocity == BULLETSPEED && b.yVelocity == 0.0
  {
    var cs := trig(player.direction);
    Bullet(player.position, BULLETSPEED * cs.cos, -BULLETSPEED * cs.sin, isPlayer1)
  }

  /** Linear motion of a bullet over dt seconds; nothing but the position changes. */
  function Advance(b: Bullet, dt: real): (r: Bullet)
    ensures r.xVelocity == b.xVelocity && r.yVelocity == b.yVelocity && r.isPlayer1 == b.isPlayer1
    ensures dt == 0.0 ==> r == b
  {
    b.(position := Point(b.position.x + b.xVelocity * dt, b.position.y + b.yVelocity * dt))
  }

  /** Advancing by dt1 and then by dt2 is advancing by dt1 + dt2. */
  lemma AdvanceAdditive(b: Bullet, dt1: real, dt2: real)
    ensures Advance(Advance(b, dt1), dt2) == Advance(b, dt1 + dt2)
  {
    var once := Advance(b, dt1);
    var twice := Advance(once, dt2);
    Distribute(b.xVelocity, dt1, dt2);
    Distribute(b.yVelocity, dt1, dt2);
    assert twice.position.x == b.position.x + b.xVelocity * (dt1 + dt2);
    assert twice.position.y == b.position.y + b.yVelocity * (dt1 + dt2);
  }

  lemma Distribute(v: real, a: real, b: real)
    ensures v * a + v * b == v * (a + b)
  {
  }

  /** A shot from (100, 240) at heading 0 flies at (150, 0) and is at
      (250, 240) one second later. */
  lemma FiredBulletTravels(trig: Trig)
    requires trig(0.0) == CosSin(1.0, 0.0)
    ensures var b := Fired(Player(Point(100.0, 240.0), 0.0, false), true, trig);
      && b.xVelocity == 150.0 && b.yVelocity == 0.0
      && Advance(b, 1.0).position == Point(250.0, 240.0)
  {
  }

  /** Motion of a ship over dt seconds: thrust in {-1, 0, 1} moves it along its
      heading at PLAYERSPEED, turn in {-1, 0, 1} decreases its heading at
      PLAYERROTATIONSPEED. The position uses the heading before the turn. */
  function Move(p: Player, turn: real, thrust: real, dt: real, trig: Trig): (r: Player)
    ensures r.isDead == p.isDead
    ensures thrust == 0.0 ==> r.position == p.position
    ensures turn == 0.0 ==> r.direction == p.direction
    ensures dt == 0.0 ==> r == p
  {
    var cs := trig(p.direction);
    Player(
      Point(p.position.x + PLAYERSPEED * cs.cos * thrust * dt,
            p.position.y - PLAYERSPEED * cs.sin * thrust * dt),
      p.direction - PLAYERROTATIONSPEED * turn * dt,
      p.isDead)
  }

  /** Without turning, thrusting for dt and then for -dt returns the ship to
      where it was. */
  lemma MoveUndone(p: Player, thrust: real, dt: real, trig: Trig)
    ensures Move(Move(p, 0.0, thrust, dt, trig), 0.0, thrust, -dt, trig) == p
  {
    var cs := trig(p.direction);
    assert PLAYERSPEED * cs.cos * thrust * -dt == -(PLAYERSPEED * cs.cos * thrust * dt);
    assert PLAYERSPEED * cs.sin * thrust * -dt == -(PLAYERSPEED * cs.sin * thrust * dt);
  }
}
