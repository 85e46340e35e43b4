/** The application state and the two entry points that change it: a key
    event, and one simulation tick (collisions against the pre-tick state,
    then ship motion unless the round is over, then the bullet pass). */
module Game {
  import opened Geometry
  import opened Entities
  import opened BulletPool
  import opened Combat
  import opened Input

  datatype Option<T> = None | Some(value: T)

  /** The keys the game reacts to; every other key is `OtherKey`. */
  datatype Key =
    | UpArrow | LeftArrow | DownArrow | RightArrow
    | KeyW | KeyA | KeyS | KeyD
    | Space | Semicolon
    | OtherKey

  datatype Event = Quit | KeyPressed(key: Key) | KeyReleased(key: Key) | OtherEvent

  /** What the event callback tells the platform: keep running, or end the
      program successfully. */
  datatype AppResult = AppContinue | AppSuccess

  /** The simulation state. The WASD mask steers the first player and Space
      fires for it; the arrow mask steers the second player and Semicolon
      fires for it. */
  datatype GameState = GameState(
    player1: Player,
    player2: Player,
    pool: Pool,
    arrows: Mask,
    wasd: Mask,
    gameOver: bool)

  function ArrowDirection(key: Key): Option<Direction> {
    if key == UpArrow then Some(Forward)
    else if key == LeftArrow then Some(TurnLeft)
    else if key == DownArrow then Some(Backward)
    else if key == RightArrow then Some(TurnRight)
    else None
  }

  function WasdDirection(key: Key): Option<Direction> {
    if key == KeyW then Some(Forward)
    else if key == KeyA then Some(TurnLeft)
    else if key == KeyS then Some(Backward)
    else if key == KeyD then Some(TurnRight)
    else None
  }

  /** What holds of every state the program reaches: a valid pool, masks
      within the low nibble, and a dead ship only once the round is over. */
  predicate GameInvariant(g: GameState) {
    && BulletPool.Valid(g.pool)
    && g.arrows < 16 && g.wasd < 16
    && (g.player1.isDead || g.player2.isDead ==> g.gameOver)
  }

  /** The zero-initialised state with the ships placed 150 pixels either side
      of the centre line, the first facing left (heading `pi`) and the second
      facing right. */
  function Initial(pi: real): (g: GameState)
    ensures GameInvariant(g)
    ensures Live(g.pool) == [] && !g.gameOver && !g.player1.isDead && !g.player2.isDead
    ensures g.player1.position == Point(WINDOW_WIDTH / 2.0 - 150.0, WINDOW_HEIGHT / 2.0)
    ensures g.player2.position == Point(WINDOW_WIDTH / 2.0 + 150.0, WINDOW_HEIGHT / 2.0)
    ensures g.player1.direction == pi && g.player2.direction == 0.0
    ensures g.arrows == 0 && g.wasd == 0
  {
    EmptyPoolValid();
    GameState(
      Player(Point(170.0, 240.0), pi, false),
      Player(Point(470.0, 240.0), 0.0, false),
      EmptyPool, 0, 0, false)
  }

  /** Presses the direction of a key, if the key has one. */
  function PressIf(m: Mask, d: Option<Direction>): (r: Mask)
    ensures forall e :: Held(r, e) <==> Held(m, e) || d == Some(e)
    ensures d.None? ==> r == m
    ensures m < 16 ==> r < 16
  {
    match d
    case Some(dir) => Press(m, dir)
    case None => m
  }

  /** Releases the direction of a key, if the key has one. */
  function ReleaseIf(m: Mask, d: Option<Direction>): (r: Mask)
    ensures forall e :: Held(r, e) <==> Held(m, e) && d != Some(e)
    ensures d.None? ==> r == m
    ensures m < 16 ==> r < 16
  {
    match d
    case Some(dir) => Release(m, dir)
    case None => m
  }

  /** A key-down event. A direction key sets exactly its own bit of its
      player's mask; Space and Semicolon fire for the first and second player
      unless the round is over. Nothing else changes. */
  function OnKeyDown(g: GameState, key: Key, trig: Trig): (r: GameState)
    requires |g.pool.bullets| == MAXBULLETS
    ensures r.player1 == g.player1 && r.player2 == g.player2 && r.gameOver == g.gameOver
    ensures forall d :: Held(r.arrows, d) <==> Held(g.arrows, d) || ArrowDirection(key) == Some(d)
    ensures forall d :: Held(r.wasd, d) <==> Held(g.wasd, d) || WasdDirection(key) == Some(d)
    ensures ArrowDirection(key).None? ==> r.arrows == g.arrows
    ensures WasdDirection(key).None? ==> r.wasd == g.wasd
    ensures key == Space && !g.gameOver ==> r.pool == Shoot(g.pool, g.player1, true, trig)
    ensures key == Semicolon && !g.gameOver ==> r.pool == Shoot(g.pool, g.player2, false, trig)
    ensures g.gameOver || (key != Space && key != Semicolon) ==> r.pool == g.pool
    ensures GameInvariant(g) ==> GameInvariant(r)
  {
    var pool :=
      if key == Space && !g.gameOver then Shoot(g.pool, g.player1, true, trig)
      else if key == Semicolon && !g.gameOver then Shoot(g.pool, g.player2, false, trig)
      else g.pool;
    g.(arrows := PressIf(g.arrows, ArrowDirection(key)), wasd := PressIf(g.wasd, WasdDirection(key)), pool := pool)
  }

  /** A key-up event: a direction key clears exactly its own bit of its
      player's mask; nothing else changes. */
  function OnKeyUp(g: GameState, key: Key): (r: GameState)
    ensures r.player1 == g.player1 && r.player2 == g.player2
    ensures r.pool == g.pool && r.gameOver == g.gameOver
    ensures forall d :: Held(r.arrows, d) <==> Held(g.arrows, d) && ArrowDirection(key) != Some(d)
    ensures forall d :: Held(r.wasd, d) <==> Held(g.wasd, d) && WasdDirection(key) != Some(d)
    ensures ArrowDirection(key).None? ==> r.arrows == g.arrows
    ensures WasdDirection(key).None? ==> r.wasd == g.wasd
    ensures GameInvariant(g) ==> GameInvariant(r)
  {
    g.(arrows := ReleaseIf(g.arrows, ArrowDirection(key)), wasd := ReleaseIf(g.wasd, WasdDirection(key)))
  }

  /** The event callback: Quit ends the program successfully, key events go
      to the handlers above, every other event is ignored. */
  function HandleEvent(g: GameState, event: Event, trig: Trig): (r: (GameState, AppResult))
    requires |g.pool.bullets| == MAXBULLETS
    ensures r.1 == AppSuccess <==> event == Quit
    ensures event == Quit || event == OtherEvent ==> r.0 == g
    ensures r.0.gameOver == g.gameOver && r.0.player1 == g.player1 && r.0.player2 == g.player2
    ensures g.gameOver ==> r.0.pool == g.pool
    ensures GameInvariant(g) ==> GameInvariant(r.0)
  {
    match event
    case Quit => (g, AppSuccess)
    case KeyPressed(key) => (OnKeyDown(g, key, trig), AppContinue)
    case KeyReleased(key) => (OnKeyUp(g, key), AppContinue)
    case OtherEvent => (g, AppContinue)
  }

  /** The motion step of a tick for one ship: it turns and thrusts by the
      axes of its mask unless the round is over. */
  function Steer(p: Player, mask: Mask, over: bool, dt: real, trig: Trig): (r: Player)
    ensures r.isDead == p.isDead
  {
    if over then p else Move(p, Horizontal(mask), Vertical(mask), dt, trig)
  }

  /** One simulation tick of dt seconds. Collisions are tested against the
      pre-tick positions. Unless the round is then over, each ship turns and
      thrusts by its mask's axes. Finally every live bullet goes through the
      per-tick pass as written, skip included. */
  method Tick(g: GameState, dt: real, trig: Trig) returns (r: GameState)
    requires |g.pool.bullets| == MAXBULLETS
    requires 0 <= g.pool.count <= MAXBULLETS
    ensures r.arrows == g.arrows && r.wasd == g.wasd
    ensures r.player1.isDead <==> g.player1.isDead || HitBy(Live(g.pool), g.player1, false)
    ensures r.player2.isDead <==> g.player2.isDead || HitBy(Live(g.pool), g.player2, true)
    ensures r.gameOver <==> g.gameOver || HitBy(Live(g.pool), g.player1, false) || HitBy(Live(g.pool), g.player2, true)
    ensures r.gameOver ==>
      && r.player1.position == g.player1.position && r.player1.direction == g.player1.direction
      && r.player2.position == g.player2.position && r.player2.direction == g.player2.direction
    ensures !r.gameOver ==>
      && r.player1 == Move(g.player1, Horizontal(g.wasd), Vertical(g.wasd), dt, trig)
      && r.player2 == Move(g.player2, Horizontal(g.arrows), Vertical(g.arrows), dt, trig)
    ensures |r.pool.bullets| == MAXBULLETS && 0 <= r.pool.count <= g.pool.count
    ensures Live(r.pool) == Sweep(Live(g.pool), dt)
    ensures GameInvariant(g) ==> GameInvariant(r)
  {
    var p1, p2, over := CheckCollisions(g.player1, g.player2, g.pool.bullets, g.pool.count, g.gameOver);
    assert !over ==> p1 == g.player1 && p2 == g.player2;
    p1 := Steer(p1, g.wasd, over, dt, trig);
    p2 := Steer(p2, g.arrows, over, dt, trig);
    var bullets, count := UpdateBullets(g.pool.bullets, g.pool.count, dt);
    r := GameState(p1, p2, Pool(bullets, count), g.arrows, g.wasd, over);
  }

  /** Once the round is over every later tick keeps both ships where they
      are and every later key-down leaves the pool alone. */
  method FrozenAfterGameOver(g: GameState, dt: real, trig: Trig, key: Key) returns (r: GameState, s: GameState)
    requires GameInvariant(g)
    requires g.gameOver
    ensures r.gameOver && s.gameOver
    ensures r.player1.position == g.player1.position && r.player1.direction == g.player1.direction
    ensures r.player2.position == g.player2.position && r.player2.direction == g.player2.direction
    ensures s.pool == g.pool
  {
    r := Tick(g, dt, trig);
    s := OnKeyDown(g, key, trig);
  }

  /** Owner filtering over a whole tick: while every live bullet belongs to
      one player, a tick cannot kill that player's ship. */
  method OwnFireHarmless(g: GameState, dt: real, trig: Trig) returns (r: GameState)
    requires |g.pool.bullets| == MAXBULLETS
    requires 0 <= g.pool.count <= MAXBULLETS
    ensures (forall k :: 0 <= k < g.pool.count ==> g.pool.bullets[k].isPlayer1) ==>
      r.player1.isDead == g.player1.isDead
    ensures (forall k :: 0 <= k < g.pool.count ==> !g.pool.bullets[k].isPlayer1) ==>
      r.player2.isDead == g.player2.isDead
  {
    r := Tick(g, dt, trig);
    OwnBulletsHarmless(Live(g.pool), g.player1, true);
    OwnBulletsHarmless(Live(g.pool), g.player2, false);
  }
}
