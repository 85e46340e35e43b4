# DuelGame core, modelled in Dafny

DuelGame is a two-player local arcade shooter. Each player steers a triangular
ship and fires bullets, and the first hit ends the round. This project models
the discrete game logic of `game.c`:

- the bullet pool: a fixed array of 100 slots plus a live count;
- shooting, and removal by shifting later slots down;
- the per-tick bullet pass, including its skip of the bullet that slides into
  a freed slot;
- the bounds test and the hit test;
- the collision check, with its one-way `isDead` and `gameOver` flags;
- the 4-bit direction masks set and cleared by key events, and the axes a
  tick reads from them;
- the tick itself: collisions first, then ship motion unless the round is
  over, then the bullet pass.

Modules, leaves first:

- `Geometry` (`geometry.dfy`): points, the playfield, `IsOutside`,
  `SquareDistance`, `BulletTouchingPlayer`.
- `Entities` (`entities.dfy`): ships, bullets, bullet and ship motion, and
  the fired bullet.
- `BulletPool` (`pool.dfy`): the slot array, shooting, removal and the
  bullet pass.
- `Combat` (`combat.dfy`): `checkCollisions`.
- `Input` (`input.dfy`): direction masks and axes.
- `Game` (`game.dfy`): the application state, key events and the tick.

Positions and velocities are `real`. The masks are `bv8`, like the source's
`unsigned char`. cos and sin are not expressible, so every operation that uses
them takes a caller-supplied `Trig` function from a heading to its cosine and
sine. A tick takes its elapsed time `dt` in seconds.

The bullet pass has a functional reference definition. `Sweep` describes what
the loop does to the live bullets as the code is written, and `SweepStable`
describes the pass the code evidently intends. The loops are proved against
these definitions.

Two edge behaviours follow the code exactly:

- A point exactly on an edge of the playfield is inside, because the test uses
  strict `<` and `>`.
- The bullet loop moves past the bullet that slid into the freed slot. It does
  not re-check that slot.

## Model

| member | source | states |
|---|---|---|
| Geometry.OutsideIffNotInField | game.c:53-55 | a point is outside exactly when it is not in the closed rectangle [0,640] x [0,480] |
| Geometry.EdgesAreInside | game.c:23-24 | points on the edges, such as (640,240) and (0,0), are inside; (640.5,240) is outside |
| Geometry.SquareDistance | game.c:127-131 | the squared distance is never negative, and it is zero between a point and itself |
| Geometry.SquareDistanceSymmetric | game.c:127-131 | the squared distance does not depend on the order of the two points |
| Geometry.TouchingIffCloserThan13 | game.c:133-135 | two points at distance d touch exactly when d < 13 = BULLETSIZE + PLAYERSIZE |
| Geometry.HitAt12NotAt13 | game.c:133-135 | a centre distance of 12 is a hit; a distance of exactly 13 is not |
| Geometry.TouchingSymmetric | game.c:133-135 | the hit test does not depend on which point is the bullet |
| Entities.Fired | game.c:57-63 | a fired bullet starts at its shooter's position with the given owner; when the heading's cosine and sine are 1 and 0, its velocity is (150, 0) |
| Entities.Advance | game.c:117-121 | advancing changes only the position; velocity and owner are kept, and dt = 0 changes nothing |
| Entities.AdvanceAdditive | game.c:120-121 | advancing by dt1 and then by dt2 equals advancing by dt1 + dt2 |
| Entities.FiredBulletTravels | game.c:57-63 | a shot from (100,240) at heading 0 is at (250,240) one second later |
| Entities.Move | game.c:160-166 | zero thrust keeps the position, zero turn keeps the heading, and the dead flag is never touched |
| Entities.MoveUndone | game.c:161-162 | without turning, thrusting for dt and then for -dt returns the ship to its start |
| BulletPool.EmptyPoolValid | game.c:195 | the zero-initialised pool satisfies the pool invariant and has no live bullets |
| BulletPool.ShootAsWritten | game.c:57-63 | the unchecked write lands outside the array exactly when the old count is outside [0, 100) |
| BulletPool.Shoot | game.c:57-63 | below capacity, a shot writes only slot `count`, increments the count and appends the fired bullet to the live sequence; at capacity it leaves the pool unchanged; it keeps the pool invariant |
| BulletPool.ShootAgreesBelowCapacity | game.c:57-63 | below capacity, the checked shot writes the same slot as the code |
| BulletPool.ShootTimesCount | game.c:57-63 | n shots in a row raise the count by n, up to the capacity of 100 |
| BulletPool.FullPoolShotOverflows | game.c:251-253 | 100 or more shots fill an empty pool; the next shot as written writes slot 100, past the end, while the checked shot leaves the pool unchanged |
| BulletPool.RemoveBullet | game.c:109-115 | slots before the index are kept; slot j takes slot j+1 from the index up to 98; slot 99 is zeroed; the count drops by exactly one; the live bullets lose exactly the removed one and keep their order |
| BulletPool.UpdateBullet | game.c:117-125 | a bullet that stays inside is advanced in place; one that leaves is removed by the shift-down |
| BulletPool.Sweep | game.c:169-171 | the pass as written never lengthens the live sequence |
| BulletPool.UpdateBullets | game.c:169-171 | the loop never raises the count and keeps it in [0, 100]; its live result equals `Sweep`, where the bullet after a removed one is neither moved nor tested; it keeps the pool invariant |
| BulletPool.LeavingBulletRemoved | game.c:117-125 | a bullet at (639,240) with velocity (150,0) reaches (640.5,240) after 0.01 s and is dropped |
| BulletPool.SweepSkipsSlidBullet | game.c:169-171 | when the first of two bullets leaves, the second is left unmoved by the pass as written, but the intended pass moves it |
| BulletPool.SweepMembers | game.c:169-171 | every bullet the pass as written keeps is either the advanced form of a live bullet that stays inside, or a live bullet left unmoved and untested because the bullet before it left |
| BulletPool.SweepAgreesWhenNoneLeave | game.c:169-171 | when no bullet leaves, the pass as written advances every bullet exactly once, in order, like the intended pass |
| BulletPool.SweepStable | game.c:169-171 | every survivor of the intended pass is inside the field |
| BulletPool.SweepStableMembers | game.c:169-171 | a bullet survives the intended pass exactly when it is the advanced form of a live bullet that stays inside |
| BulletPool.UpdateBulletsStable | game.c:169-171 | the corrected loop, which keeps the index after a removal, produces exactly `SweepStable` and keeps the pool invariant |
| Combat.CheckCollisions | game.c:137-148 | the second ship dies exactly when it was dead or a first-player bullet touches it, and the first ship likewise; `gameOver` becomes true exactly on a hit or if already set; flags never clear; positions and headings are kept |
| Combat.OwnBulletsHarmless | game.c:139-146 | a hit by an owner is exactly a touching bullet of that owner; when every bullet belongs to one owner, the other owner scores no hit |
| Input.BitsDistinct | game.c:237-298 | distinct directions have disjoint bits, and each key-up literal 14/13/11/7 is the low nibble without that key's bit |
| Input.Press | game.c:239-265 | key-down sets the key's bit and leaves every other bit as it was; a mask in 0..15 stays in 0..15 |
| Input.Release | game.c:273-296 | key-up clears the key's bit and keeps the other low bits; the result is always in 0..15 |
| Input.PressReleaseLaws | game.c:237-298 | on a nibble, press and release are idempotent, and the later of a press and a release decides the bit |
| Input.Horizontal | game.c:155-157 | the turn axis is in {-1,0,1}; it is 0 exactly when both turn bits are set or both are clear |
| Input.Vertical | game.c:156-158 | the thrust axis is in {-1,0,1}; it is 0 exactly when both thrust bits are set or both are clear |
| Input.AxesFromKeys | game.c:155-158 | with no keys held both axes are 0; each axis reads only its own pair of bits; opposing keys cancel |
| Game.Initial | game.c:195-226 | the start state satisfies the game invariant, with no bullets, both ships alive, 150 px either side of centre, headings `pi` and 0, and both direction masks zero |
| Game.PressIf | game.c:239-264 | a key's direction bit is added, and every other bit is kept |
| Game.ReleaseIf | game.c:273-296 | a key's direction bit is removed, and every other bit is kept |
| Game.OnKeyDown | game.c:237-270 | a direction key sets exactly its bit in its own player's mask; Space and Semicolon fire for player 1 and player 2 unless the round is over; ships and flags are unchanged; the invariant is kept |
| Game.OnKeyUp | game.c:271-298 | a direction key clears exactly its bit in its own player's mask; nothing else changes |
| Game.HandleEvent | game.c:231-302 | only Quit ends the program; other events leave ships and flags alone, and no event adds a bullet once the round is over |
| Game.Tick | game.c:150-172 | collisions are judged on pre-tick positions; flags only go false to true; a ship moves only if the round is still running; the live bullets become `Sweep` of the old ones; the count never rises; masks and the game invariant are kept |
| Game.OwnFireHarmless | game.c:137-148 | while every live bullet belongs to the first player, a tick leaves the first ship's dead flag as it was, and likewise for the second player |
| Game.FrozenAfterGameOver | game.c:160-167 | after the round is over, a tick keeps both ships' positions and headings, and a key-down adds no bullet |

## Findings

| source | as written | input that shows it | evidently intended | confidence | as-written member | corrected member |
|---|---|---|---|---|---|---|
| game.c:57-63 | `shoot` increments the count and writes slot `count-1` without a capacity check, and the key-down handler (lines 251-253 and 266-268) calls it unguarded | 100 live bullets (both fire keys held with key repeat), then Space: the write goes to `bullets[100]`, past the array | refuse the shot when the pool is full | high; not executed | BulletPool.FullPoolShotOverflows | BulletPool.Shoot |
| game.c:169-171 | after `updateBullet` removes the bullet at `i`, the loop still increments `i`, so the bullet shifted into slot `i` is not advanced or tested that tick | two live bullets where the first leaves the field: the second is not moved that tick | every live bullet is advanced and tested exactly once per tick | medium; not executed | BulletPool.SweepSkipsSlidBullet | BulletPool.UpdateBulletsStable |

The key handlers use the checked `Shoot`. `Game.Tick` keeps the as-written
bullet pass, so the model's tick matches the program. The corrected pass is
proved on its own and relates to the as-written pass through
`SweepAgreesWhenNoneLeave`.

## Left out

- Rendering: `render`, `drawCircle` and `drawPlayer` only draw, using
  floating-point pixel loops and trigonometry.
- Platform setup and teardown: the window and renderer creation in
  `SDL_AppInit`, and `SDL_AppQuit`. These are platform I/O and allocation.
  Only the start values of the state are modelled, in `Game.Initial`.
- The clock: `SDL_GetTicksNS`, the static previous timestamp, and the
  nanosecond-to-second conversion in `SDL_AppIterate`. A tick takes `dt` in
  seconds instead.
- Trigonometry: `SDL_cos` and `SDL_sin` become the `Trig` parameter. The angle
  `pi` of the first ship's start heading is a parameter of `Game.Initial`.
- Floating point: `float` and `double` rounding is not modelled. All arithmetic
  is on exact reals.
- The copies of the players that `SDL_AppIterate` takes for rendering. They
  only feed `render`.
- Game.OnKeyDown: at capacity it refuses the shot, where the program writes
  past the array (first finding above); below capacity it is exactly the
  program's behaviour.
- Geometry.TouchingIffCloserThan13: the distance is given as a `d` with
  `d * d` equal to the squared distance, because square roots are not
  available.
