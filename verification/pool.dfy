/** The bullet pool: a fixed array of MAXBULLETS slots of which the first
    `count` are live. Bullets are appended by a shot, and removed by shifting
    every later slot down by one (stable compaction). */
module BulletPool {
  import opened Geometry
  import opened Entities

  const MAXBULLETS: int := 100

  /** The fixed slot array together with the number of live bullets. */
  datatype Pool = Pool(bullets: seq<Bullet>, count: int)

  /** The pool's standing invariant: MAXBULLETS slots, a count within
      [0, MAXBULLETS], and every slot past the count zeroed (the state starts
      zero-initialised and a removal zeroes the slot it frees). */
  predicate Valid(p: Pool) {
    && |p.bullets| == MAXBULLETS
    && 0 <= p.count <= MAXBULLETS
    && forall j :: p.count <= j < MAXBULLETS ==> p.bullets[j] == ZeroBullet
  }

  /** The live bullets, in slot order. */
  function Live(p: Pool): seq<Bullet>
    requires 0 <= p.count <= |p.bullets|
  {
    p.bullets[..p.count]
  }

  /** `n` zeroed slots. */
  function ZeroSlots(n: nat): (r: seq<Bullet>)
    ensures |r| == n
    ensures forall k :: 0 <= k < n ==> r[k] == ZeroBullet
  {
    if n == 0 then [] else ZeroSlots(n - 1) + [ZeroBullet]
  }

  /** The zero-initialised pool. */
  const EmptyPool: Pool := Pool(ZeroSlots(MAXBULLETS), 0)

  lemma EmptyPoolValid()
    ensures Valid(EmptyPool) && Live(EmptyPool) == []
  {
  }

  /** Whether a bullet is past an edge once it has moved for dt seconds. */
  predicate Leaves(b: Bullet, dt: real) {
    IsOutside(Advance(b, dt).position)
  }

  // ---------------------------------------------------------------------
  // Shooting
  // ---------------------------------------------------------------------

  /** The effect of a shot on memory as the code is written: the count is
      incremented and the slot `count - 1` (the old count) is written with no
      capacity check; a write outside the array is reported as OutOfBounds. */
  datatype Shot = Written(pool: Pool) | OutOfBounds(slot: int)

  function ShootAsWritten(pool: Pool, player: Player, isPlayer1: bool, trig: Trig): (r: Shot)
    requires |pool.bullets| == MAXBULLETS
    ensures r.OutOfBounds? <==> pool.count < 0 || MAXBULLETS <= pool.count
    ensures r.OutOfBounds? ==> r.slot == pool.count
    ensures r.Written? ==> r.pool.count == pool.count + 1
  {
    var count := pool.count + 1;
    var slot := count - 1;
    if 0 <= slot < MAXBULLETS then
      Written(Pool(pool.bullets[slot := Fired(player, isPlayer1, trig)], count))
    else
      OutOfBounds(slot)
  }

  /** A shot with the capacity check the code lacks: below capacity it writes
      exactly the slot at the old count and increments the count; at capacity
      the pool is left as it is. */
  function Shoot(pool: Pool, player: Player, isPlayer1: bool, trig: Trig): (r: Pool)
    requires |pool.bullets| == MAXBULLETS
    ensures |r.bullets| == MAXBULLETS
    ensures 0 <= pool.count < MAXBULLETS ==>
      && r.count == pool.count + 1
      && r.bullets[pool.count] == Fired(player, isPlayer1, trig)
      && r.bullets[pool.count].position == player.position
      && r.bullets[pool.count].isPlayer1 == isPlayer1
      && forall j :: 0 <= j < MAXBULLETS && j != pool.count ==> r.bullets[j] == pool.bullets[j]
    ensures !(0 <= pool.count < MAXBULLETS) ==> r == pool
    ensures Valid(pool) ==> Valid(r)
    ensures Valid(pool) && pool.count < MAXBULLETS ==> Live(r) == Live(pool) + [Fired(player, isPlayer1, trig)]
  {
    if 0 <= pool.count < MAXBULLETS then
      var r := Pool(pool.bullets[pool.count := Fired(player, isPlayer1, trig)], pool.count + 1);
      assert Valid(pool) ==> Live(r) == Live(pool) + [Fired(player, isPlayer1, trig)];
      r
    else
      pool
  }

  /** Below capacity the checked shot is the shot as written. */
  lemma ShootAgreesBelowCapacity(pool: Pool, player: Player, isPlayer1: bool, trig: Trig)
    requires |pool.bullets| == MAXBULLETS
    requires 0 <= pool.count < MAXBULLETS
    ensures ShootAsWritten(pool, player, isPlayer1, trig) == Written(Shoot(pool, player, isPlayer1, trig))
  {
  }

  /** `n` shots in a row with no bullet leaving in between. */
  function ShootTimes(pool: Pool, player: Player, isPlayer1: bool, trig: Trig, n: nat): (r: Pool)
    requires |pool.bullets| == MAXBULLETS
    ensures |r.bullets| == MAXBULLETS
    decreases n
  {
    if n == 0 then pool else ShootTimes(Shoot(pool, player, isPlayer1, trig), player, isPlayer1, trig, n - 1)
  }

  /** Shots fill the pool one slot each until it is full. */
  lemma {:induction false} ShootTimesCount(pool: Pool, player: Player, isPlayer1: bool, trig: Trig, n: nat)
    requires Valid(pool)
    ensures Valid(ShootTimes(pool, player, isPlayer1, trig, n))
    ensures ShootTimes(pool, player, isPlayer1, trig, n).count ==
      if pool.count + n <= MAXBULLETS then pool.count + n else MAXBULLETS
    decreases n
  {
    if n > 0 {
      ShootTimesCount(Shoot(pool, player, isPlayer1, trig), player, isPlayer1, trig, n - 1);
    }
  }

  /** The overflow: a hundred or more shots from the empty pool fill it, and
      one more shot as written writes slot MAXBULLETS, one past the end of the
      array, while the checked shot refuses and leaves the pool unchanged. */
  lemma FullPoolShotOverflows(player: Player, isPlayer1: bool, trig: Trig, n: nat)
    requires MAXBULLETS <= n
    ensures var full := ShootTimes(EmptyPool, player, isPlayer1, trig, n);
      && Valid(full) && full.count == MAXBULLETS
      && ShootAsWritten(full, player, isPlayer1, trig) == OutOfBounds(MAXBULLETS)
      && Shoot(full, player, isPlayer1, trig) == full
  {
    EmptyPoolValid();
    ShootTimesCount(EmptyPool, player, isPlayer1, trig, n);
  }

  // ---------------------------------------------------------------------
  // Removal
  // ---------------------------------------------------------------------

  /** Removes the bullet at `bulletIndex`: every later slot moves down by one,
      the last slot is zeroed and the count drops by one. */
  method RemoveBullet(bullets: seq<Bullet>, bulletIndex: int, bulletCount: int) returns (bs: seq<Bullet>, count: int)
    requires |bullets| == MAXBULLETS
    requires 0 <= bulletIndex
    ensures |bs| == MAXBULLETS
    ensures count == bulletCount - 1
    ensures forall j :: 0 <= j < bulletIndex && j < MAXBULLETS - 1 ==> bs[j] == bullets[j]
    ensures forall j :: bulletIndex <= j < MAXBULLETS - 1 ==> bs[j] == bullets[j + 1]
    ensures bs[MAXBULLETS - 1] == ZeroBullet
    ensures bulletIndex < bulletCount <= MAXBULLETS ==>
      bs[..count] == bullets[..bulletIndex] + bullets[bulletIndex + 1..bulletCount]
    ensures Valid(Pool(bullets, bulletCount)) && bulletIndex < bulletCount ==> Valid(Pool(bs, count))
  {
    bs := bullets;
    var i := bulletIndex;
    while i < MAXBULLETS - 1
      invariant |bs| == MAXBULLETS
      invariant bulletIndex <= i
      invariant i < MAXBULLETS || i == bulletIndex
      invariant forall j :: 0 <= j < bulletIndex && j < MAXBULLETS ==> bs[j] == bullets[j]
      invariant forall j :: bulletIndex <= j < i && j < MAXBULLETS - 1 ==> bs[j] == bullets[j + 1]
      invariant forall j :: i <= j < MAXBULLETS ==> bs[j] == bullets[j]
      decreases MAXBULLETS - 1 - i
    {
      bs := bs[i := bs[i + 1]];
      i := i + 1;
    }
    bs := bs[MAXBULLETS - 1 := ZeroBullet];
    count := bulletCount - 1;
    if bulletIndex < bulletCount <= MAXBULLETS {
      assert forall j :: 0 <= j < count ==>
        bs[j] == (bullets[..bulletIndex] + bullets[bulletIndex + 1..bulletCount])[j];
    }
  }

  // ---------------------------------------------------------------------
  // Per-tick bullet pass
  // ---------------------------------------------------------------------

  /** Advances the bullet at `bulletIndex` and removes it when it has left the
      field. */
  method UpdateBullet(bullets: seq<Bullet>, bulletIndex: int, bulletCount: int, dt: real) returns (bs: seq<Bullet>, count: int)
    requires |bullets| == MAXBULLETS
    requires 0 <= bulletIndex < MAXBULLETS
    ensures |bs| == MAXBULLETS
    ensures !Leaves(bullets[bulletIndex], dt) ==>
      count == bulletCount && bs == bullets[bulletIndex := Advance(bullets[bulletIndex], dt)]
    ensures Leaves(bullets[bulletIndex], dt) ==>
      && count == bulletCount - 1
      && (forall j :: 0 <= j < bulletIndex ==> bs[j] == bullets[j])
      && (forall j :: bulletIndex <= j < MAXBULLETS - 1 ==> bs[j] == bullets[j + 1])
      && bs[MAXBULLETS - 1] == ZeroBullet
    ensures Leaves(bullets[bulletIndex], dt) && bulletIndex < bulletCount <= MAXBULLETS ==>
      bs[..count] == bullets[..bulletIndex] + bullets[bulletIndex + 1..bulletCount]
    ensures Valid(Pool(bullets, bulletCount)) && bulletIndex < bulletCount ==> Valid(Pool(bs, count))
  {
    var moved := Advance(bullets[bulletIndex], dt);
    bs := bullets[bulletIndex := moved];
    count := bulletCount;
    if IsOutside(moved.position) {
      var shifted := bs;
      bs, count := RemoveBullet(shifted, bulletIndex, bulletCount);
      if bulletIndex < bulletCount <= MAXBULLETS {
        assert shifted[bulletIndex + 1..bulletCount] == bullets[bulletIndex + 1..bulletCount];
        assert shifted[..bulletIndex] == bullets[..bulletIndex];
      }
    }
  }

  /** What the per-tick loop does to the live bullets, read left to right.
      Each processed bullet is advanced and dropped if it left the field.
      When one is dropped, its successor slides into the freed slot after the
      loop index has already passed it, so the successor is kept as it was,
      neither advanced nor bounds-tested, and processing resumes with the
      bullet after it. */
  function Sweep(live: seq<Bullet>, dt: real): (r: seq<Bullet>)
    ensures |r| <= |live|
    decreases |live|
  {
    if |live| == 0 then []
    else if !Leaves(live[0], dt) then [Advance(live[0], dt)] + Sweep(live[1..], dt)
    else if |live| == 1 then []
    else [live[1]] + Sweep(live[2..], dt)
  }

  /** The bullet loop of a tick as written: the index is incremented after a
      removal as well, so the bullet shifted into the freed slot is skipped. */
  method UpdateBullets(bullets: seq<Bullet>, bulletCount: int, dt: real) returns (bs: seq<Bullet>, count: int)
    requires |bullets| == MAXBULLETS
    requires 0 <= bulletCount <= MAXBULLETS
    ensures |bs| == MAXBULLETS
    ensures 0 <= count <= bulletCount
    ensures bs[..count] == Sweep(bullets[..bulletCount], dt)
    ensures Valid(Pool(bullets, bulletCount)) ==> Valid(Pool(bs, count))
  {
    bs, count := bullets, bulletCount;
    var i := 0;
    while i < count
      invariant |bs| == MAXBULLETS
      invariant 0 <= count <= bulletCount
      invariant 0 <= i <= count + 1
      invariant var k := if i <= count then i else count;
        bs[..k] + Sweep(bs[k..count], dt) == Sweep(bullets[..bulletCount], dt)
      invariant Valid(Pool(bullets, bulletCount)) ==> Valid(Pool(bs, count))
      decreases count - i
    {
      ghost var before, before_count := bs, count;
      var leaves := Leaves(bs[i], dt);
      bs, count := UpdateBullet(bs, i, count, dt);
      if !leaves {
        SweepKeepStep(before, bs, i, before_count, dt);
      } else {
        SweepDropStep(before, bs, i, before_count, dt);
      }
      i := i + 1;
    }
  }

  /** One iteration of the as-written loop that keeps the bullet at `i`. */
  lemma SweepKeepStep(before: seq<Bullet>, after: seq<Bullet>, i: int, count: int, dt: real)
    requires 0 <= i < count <= |before| == |after|
    requires !Leaves(before[i], dt)
    requires after == before[i := Advance(before[i], dt)]
    ensures after[..i + 1] + Sweep(after[i + 1..count], dt) == before[..i] + Sweep(before[i..count], dt)
  {
    var live := before[i..count];
    assert live[0] == before[i];
    assert after[..i + 1] == before[..i] + [Advance(live[0], dt)];
    assert after[i + 1..count] == live[1..];
  }

  /** One iteration of the as-written loop that drops the bullet at `i`: the
      loop moves past the bullet that slid into slot `i`. */
  lemma SweepDropStep(before: seq<Bullet>, after: seq<Bullet>, i: int, count: int, dt: real)
    requires 0 <= i < count <= |before| == |after|
    requires Leaves(before[i], dt)
    requires after[..count - 1] == before[..i] + before[i + 1..count]
    ensures var k := if i + 1 <= count - 1 then i + 1 else count - 1;
      after[..k] + Sweep(after[k..count - 1], dt) == before[..i] + Sweep(before[i..count], dt)
  {
    var live := before[i..count];
    assert live[0] == before[i];
    if i + 1 <= count - 1 {
      assert after[..i + 1] == before[..i] + [live[1]];
      assert after[i + 1..count - 1] == live[2..];
    } else {
      assert after[..i] == before[..i];
    }
  }

  /** The pass the program evidently intends: every live bullet is advanced exactly once
      and dropped if it left the field; survivors keep their order. */
  function SweepStable(live: seq<Bullet>, dt: real): (r: seq<Bullet>)
    ensures |r| <= |live|
    ensures forall k :: 0 <= k < |r| ==> !IsOutside(r[k].position)
    decreases |live|
  {
    if |live| == 0 then []
    else (if Leaves(live[0], dt) then [] else [Advance(live[0], dt)]) + SweepStable(live[1..], dt)
  }

  /** The corrected loop: after a removal the index stays put, so the bullet
      that slid into the freed slot is processed next. */
  method UpdateBulletsStable(bullets: seq<Bullet>, bulletCount: int, dt: real) returns (bs: seq<Bullet>, count: int)
    requires |bullets| == MAXBULLETS
    requires 0 <= bulletCount <= MAXBULLETS
    ensures |bs| == MAXBULLETS
    ensures 0 <= count <= bulletCount
    ensures bs[..count] == SweepStable(bullets[..bulletCount], dt)
    ensures Valid(Pool(bullets, bulletCount)) ==> Valid(Pool(bs, count))
  {
    bs, count := bullets, bulletCount;
    var i := 0;
    while i < count
      invariant |bs| == MAXBULLETS
      invariant 0 <= i <= count <= bulletCount
      invariant bs[..i] + SweepStable(bs[i..count], dt) == SweepStable(bullets[..bulletCount], dt)
      invariant Valid(Pool(bullets, bulletCount)) ==> Valid(Pool(bs, count))
      decreases count - i
    {
      ghost var before, before_count := bs, count;
      var leaves := Leaves(bs[i], dt);
      bs, count := UpdateBullet(bs, i, count, dt);
      if !leaves {
        StableKeepStep(before, bs, i, before_count, dt);
        i := i + 1;
      } else {
        StableDropStep(before, bs, i, before_count, dt);
      }
    }
  }

  /** One iteration of the corrected loop that keeps the bullet at `i`. */
  lemma StableKeepStep(before: seq<Bullet>, after: seq<Bullet>, i: int, count: int, dt: real)
    requires 0 <= i < count <= |before| == |after|
    requires !Leaves(before[i], dt)
    requires after == before[i := Advance(before[i], dt)]
    ensures after[..i + 1] + SweepStable(after[i + 1..count], dt) == before[..i] + SweepStable(before[i..count], dt)
  {
    var live := before[i..count];
    assert live[0] == before[i];
    assert after[..i + 1] == before[..i] + [Advance(live[0], dt)];
    assert after[i + 1..count] == live[1..];
  }

  /** One iteration of the corrected loop that drops the bullet at `i`: the
      index stays on the bullet that slid into slot `i`. */
  lemma StableDropStep(before: seq<Bullet>, after: seq<Bullet>, i: int, count: int, dt: real)
    requires 0 <= i < count <= |before| == |after|
    requires Leaves(before[i], dt)
    requires after[..count - 1] == before[..i] + before[i + 1..count]
    ensures after[..i] + SweepStable(after[i..count - 1], dt) == before[..i] + SweepStable(before[i..count], dt)
  {
    var live := before[i..count];
    assert live[0] == before[i];
    assert after[..i] == before[..i];
    assert after[i..count - 1] == live[1..];
  }

  /** A bullet survives the intended pass exactly when it is the advanced
      form of a live bullet that stays inside the field. */
  lemma {:induction false} SweepStableMembers(live: seq<Bullet>, dt: real, b: Bullet)
    ensures b in SweepStable(live, dt) <==>
      exists k :: 0 <= k < |live| && Advance(live[k], dt) == b && !Leaves(live[k], dt)
    decreases |live|
  {
    if |live| > 0 {
      SweepStableMembers(live[1..], dt, b);
      if exists k :: 0 <= k < |live| && Advance(live[k], dt) == b && !Leaves(live[k], dt) {
        var k :| 0 <= k < |live| && Advance(live[k], dt) == b && !Leaves(live[k], dt);
        if k > 0 {
          assert live[1..][k - 1] == live[k];
        }
      }
      if exists k :: 0 <= k < |live[1..]| && Advance(live[1..][k], dt) == b && !Leaves(live[1..][k], dt) {
        var k :| 0 <= k < |live[1..]| && Advance(live[1..][k], dt) == b && !Leaves(live[1..][k], dt);
        assert live[k + 1] == live[1..][k];
      }
    }
  }

  /** Every bullet the as-written pass keeps is either the advanced form of
      a live bullet that stays inside the field, or a live bullet left as it
      was because the bullet before it left the field. */
  lemma {:induction false} SweepMembers(live: seq<Bullet>, dt: real, b: Bullet)
    ensures b in Sweep(live, dt) ==>
      exists k :: 0 <= k < |live| &&
        ((Advance(live[k], dt) == b && !Leaves(live[k], dt))
         || (0 < k && live[k] == b && Leaves(live[k - 1], dt)))
    decreases |live|
  {
    if |live| > 0 && b in Sweep(live, dt) {
      if !Leaves(live[0], dt) {
        if b != Advance(live[0], dt) {
          SweepMembers(live[1..], dt, b);
          var k :| 0 <= k < |live[1..]| &&
            ((Advance(live[1..][k], dt) == b && !Leaves(live[1..][k], dt))
             || (0 < k && live[1..][k] == b && Leaves(live[1..][k - 1], dt)));
          assert live[1..][k] == live[k + 1];
          assert 0 < k ==> live[1..][k - 1] == live[k];
        }
      } else if b == live[1] {
        assert 0 < 1 && live[1] == b && Leaves(live[0], dt);
      } else {
        SweepMembers(live[2..], dt, b);
        var k :| 0 <= k < |live[2..]| &&
          ((Advance(live[2..][k], dt) == b && !Leaves(live[2..][k], dt))
           || (0 < k && live[2..][k] == b && Leaves(live[2..][k - 1], dt)));
        assert live[2..][k] == live[k + 2];
        assert 0 < k ==> live[2..][k - 1] == live[k + 1];
      }
    }
  }

  /** When no bullet leaves the field the as-written pass and the intended
      pass agree: every bullet is advanced once, in order. */
  lemma {:induction false} SweepAgreesWhenNoneLeave(live: seq<Bullet>, dt: real)
    requires forall k :: 0 <= k < |live| ==> !Leaves(live[k], dt)
    ensures Sweep(live, dt) == SweepStable(live, dt)
    ensures |Sweep(live, dt)| == |live|
    ensures forall k :: 0 <= k < |live| ==> Sweep(live, dt)[k] == Advance(live[k], dt)
    decreases |live|
  {
    if |live| > 0 {
      assert !Leaves(live[0], dt);
      SweepAgreesWhenNoneLeave(live[1..], dt);
    }
  }

  /** A bullet at (639, 240) flying at (150, 0) reaches (640.5, 240) after
      0.01 s and is dropped by the pass. */
  lemma LeavingBulletRemoved()
    ensures var b := Bullet(Point(639.0, 240.0), 150.0, 0.0, true);
      Advance(b, 0.01).position == Point(640.5, 240.0) && Sweep([b], 0.01) == []
  {
    var b := Bullet(Point(639.0, 240.0), 150.0, 0.0, true);
    assert Leaves(b, 0.01);
  }

  /** The skip: the first of two bullets leaves the field, and the second,
      shifted into slot 0 after the loop passed it, is not moved this tick,
      where the intended pass moves it. */
  lemma SweepSkipsSlidBullet()
    ensures var leaving := Bullet(Point(639.0, 240.0), 150.0, 0.0, true);
      var staying := Bullet(Point(100.0, 100.0), 10.0, 0.0, false);
      && Sweep([leaving, staying], 0.01) == [staying]
      && SweepStable([leaving, staying], 0.01) == [Bullet(Point(100.1, 100.0), 10.0, 0.0, false)]
  {
    var leaving := Bullet(Point(639.0, 240.0), 150.0, 0.0, true);
    var staying := Bullet(Point(100.0, 100.0), 10.0, 0.0, false);
    assert Advance(leaving, 0.01).position == Point(640.5, 240.0);
    assert Leaves(leaving, 0.01);
    assert Advance(staying, 0.01) == Bullet(Point(100.1, 100.0), 10.0, 0.0, false);
    assert !Leaves(staying, 0.01);
    assert [leaving, staying][2..] == [];
    assert [leaving, staying][1..] == [staying];
    assert [staying][1..] == [];
  }
}
