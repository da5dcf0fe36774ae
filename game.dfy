/** The per-frame rules of the shooter: one `World` holds the bullet, enemy and
    explosion groups, the player ship's state and the fire cooldown, and each
    method is one of the game's update steps.

    The physics engine that integrates velocities into positions between frames,
    the renderer and the timer service are outside the model: the clock, the
    random draws, the trigonometry and the overlap pairs that the physics engine
    reports are parameters. */
module Game {
  import Pool
  import opened Bullets

  /** Maximum size of the bullet group. */
  const BulletCapacity: nat := 30
  /** Maximum size of the enemy group. */
  const EnemyCapacity: nat := 15
  /** The player's maximum speed, which is also the steering speed. */
  const MaxSpeed: real := 400.0
  /** Distance the ship keeps from the left and right edges. */
  const Margin: real := 50.0
  /** The pointer steers only when it is this far inside every edge. */
  const PointerInset: real := 20.0
  /** Horizontal pointer distance at which steering reaches full speed. */
  const SteerDistance: real := 200.0
  /** Tilt of the ship, in degrees, at full bank. */
  const BankAngle: real := 30.0
  /** Speed of a bullet relative to the ship. */
  const BulletSpeed: real := 400.0
  /** Milliseconds between two shots. */
  const BulletSpacing: real := 250.0
  /** Largest horizontal offset of a bullet from the ship's centre. */
  const MaxBulletOffset: real := 20.0
  /** Bounds, in milliseconds, of the delay before the next enemy launch. */
  const MinEnemySpacing: int := 300
  const MaxEnemySpacing: int := 3000
  /** Downward speed of a launched enemy and bound of its horizontal speed. */
  const EnemySpeed: real := 300.0
  const EnemyMaxVx: int := 300
  /** Height at which enemies enter, just above the field. */
  const EnemySpawnY: real := -20.0
  const EnemyDrag: real := 100.0
  const EnemyScale: real := 0.5
  /** How far above an enemy its trail sits. */
  const TrailLift: real := 10.0
  const ExplosionAlpha: real := 0.7

  /** One member of the enemy group. The position is the centre of the enemy's
      physics body; `hasTrail` says whether a trail emitter has been attached to
      this member, and the trail's position is kept with it. */
  datatype Enemy = Enemy(
    active: bool, x: real, y: real, vx: real, vy: real,
    drag: real, scale: real,
    hasTrail: bool, trailX: real, trailY: real)

  /** A member the enemy group has just created: it has no trail yet; every
      other field is overwritten by the launch. */
  const FreshEnemy: Enemy := Enemy(true, 0.0, 0.0, 0.0, 0.0, 0.0, 1.0, false, 0.0, 0.0)

  /** One member of the explosion group. */
  datatype Explosion = Explosion(x: real, y: real, vx: real, vy: real, alpha: real)

  predicate IsAlive(e: Enemy)
  {
    e.active
  }

  /** The active flags of the enemy group, in group order. */
  function EnemyFlags(s: seq<Enemy>): seq<bool>
  {
    Pool.Flags(s, IsAlive)
  }

  /** The explosion that a collision with enemy `e` starts: at the centre of the
      enemy's body, drifting with the enemy's velocity. */
  function Blast(e: Enemy): Explosion
  {
    Explosion(e.x, e.y, e.vx, e.vy, ExplosionAlpha)
  }

  /** `Phaser.Math.Clamp`: the larger of `lo` and the smaller of `hi` and `v`. */
  function Clamp(v: real, lo: real, hi: real): (r: real)
    ensures lo <= hi ==> lo <= r <= hi
    ensures lo <= v <= hi ==> r == v
    ensures lo <= hi <= v ==> r == hi
    ensures v <= lo <= hi ==> r == lo
  {
    var upper := if hi < v then hi else v;
    if lo > upper then lo else upper
  }

  /** The horizontal velocity that steering gives the ship, from the pointer's and the
      ship's x: proportional to their distance up to `SteerDistance`, and the
      maximum speed in the pointer's direction beyond. */
  function SteeredVx(pointerX: real, shipX: real): (v: real)
    ensures -MaxSpeed <= v <= MaxSpeed
    ensures pointerX - shipX >= SteerDistance ==> v == MaxSpeed
    ensures pointerX - shipX <= -SteerDistance ==> v == -MaxSpeed
    ensures -SteerDistance <= pointerX - shipX <= SteerDistance ==> v == 2.0 * (pointerX - shipX)
    ensures (v > 0.0 <==> pointerX > shipX) && (v < 0.0 <==> pointerX < shipX)
  {
    MaxSpeed * Clamp((pointerX - shipX) / SteerDistance, -1.0, 1.0)
  }

  /** The bank ratio: horizontal velocity as a fraction of the maximum speed. */
  function BankOf(vx: real): (b: real)
    ensures -MaxSpeed <= vx <= MaxSpeed ==> -1.0 <= b <= 1.0
    ensures (b < 0.0 <==> vx < 0.0) && (b > 0.0 <==> vx > 0.0)
    ensures vx == MaxSpeed ==> b == 1.0
    ensures vx == -MaxSpeed ==> b == -1.0
  {
    vx / MaxSpeed
  }

  /** Horizontal squash of the ship: full width level, half width at full bank. */
  function ScaleXOf(bank: real): (s: real)
    ensures -1.0 <= bank <= 1.0 ==> 0.5 <= s <= 1.0
    ensures s == 1.0 <==> bank == 0.0
    ensures s == 0.5 <==> (bank == 1.0 || bank == -1.0)
  {
    1.0 - (if bank < 0.0 then -bank else bank) / 2.0
  }

  /** Tilt of the ship, in degrees, in the direction of the bank. */
  function AngleOf(bank: real): (a: real)
    ensures -1.0 <= bank <= 1.0 ==> -BankAngle <= a <= BankAngle
    ensures (a < 0.0 <==> bank < 0.0) && (a > 0.0 <==> bank > 0.0)
  {
    bank * BankAngle
  }

  /** A pair `(enemy, bullet)` reported by the enemy-versus-bullet overlap
      resolves when the bullet was live before the pass and no earlier pair of
      the pass named the same bullet (an earlier resolution kills it). */
  ghost predicate Resolves(hits: seq<(nat, nat)>, i: nat, before: seq<Bullet>)
    requires i < |hits|
  {
    hits[i].1 < |before| && before[hits[i].1].active
    && forall i' :: 0 <= i' < i ==> hits[i'].1 != hits[i].1
  }

  /** The `i`-th enemy reported by the ship-versus-enemy overlap is struck when
      it was live before the pass and was not reported earlier in the pass (the
      earlier report kills it). */
  ghost predicate Strikes(hits: seq<nat>, i: nat, before: seq<Enemy>)
    requires i < |hits|
  {
    hits[i] < |before| && before[hits[i]].active
    && forall i' :: 0 <= i' < i ==> hits[i'] != hits[i]
  }

  /** Killing a live bullet makes one fewer bullet live. */
  lemma KillCount(s: seq<Bullet>, j: nat)
    requires j < |s| && s[j].active
    ensures Pool.CountActive(ActiveFlags(s[j := s[j].(active := false)])) == Pool.CountActive(ActiveFlags(s)) - 1
  {
    assert ActiveFlags(s[j := s[j].(active := false)]) == ActiveFlags(s)[j := false];
    Pool.CountActiveUpdate(ActiveFlags(s), j, false);
  }

  /** No pair named in `picked` has enemy `k`. */
  predicate Spared(hits: seq<(nat, nat)>, picked: seq<nat>, k: nat)
  {
    forall n :: 0 <= n < |picked| && picked[n] < |hits| ==> hits[picked[n]].0 != k
  }

  lemma SparedAppend(hits: seq<(nat, nat)>, picked: seq<nat>, i: nat, k: nat)
    requires i < |hits|
    ensures Spared(hits, picked + [i], k) <==> Spared(hits, picked, k) && hits[i].0 != k
  {
    assert forall n :: 0 <= n < |picked| ==> (picked + [i])[n] == picked[n];
    assert (picked + [i])[|picked|] == i;
  }

  /** What the enemy-versus-bullet pass has done after its first `i` pairs,
      from bullets `b0`, enemies `e0` and explosions `x0` to `b`, `e` and `x`,
      having resolved the pairs listed in `resolved`. */
  ghost predicate BulletPassUpTo(
    hits: seq<(nat, nat)>, i: nat, resolved: seq<nat>,
    b0: seq<Bullet>, b: seq<Bullet>, e0: seq<Enemy>, e: seq<Enemy>, x0: seq<Explosion>, x: seq<Explosion>)
  {
    && i <= |hits|
    && (forall i' :: 0 <= i' < |hits| ==> hits[i'].0 < |e0| && hits[i'].1 < |b0|)
    && |e| == |e0| && |b| == |b0|
    && (forall j :: 0 <= j < |b| ==>
          b[j] == b0[j].(active := b0[j].active && forall i' :: 0 <= i' < i ==> hits[i'].1 != j))
    && |x| == |x0| + |resolved|
    && x[..|x0|] == x0
    && (forall n :: 0 <= n < |resolved| ==>
          && resolved[n] < i && Resolves(hits, resolved[n], b0)
          && x[|x0| + n] == Blast(e0[hits[resolved[n]].0]))
    && (forall n, m :: 0 <= n < m < |resolved| ==> resolved[n] < resolved[m])
    && (forall k :: 0 <= k < |e| ==> e[k] == e0[k].(active := e0[k].active && Spared(hits, resolved, k)))
    && (forall i' :: 0 <= i' < i && Resolves(hits, i', b0) ==> i' in resolved)
    && |resolved| == Pool.CountActive(ActiveFlags(b0)) - Pool.CountActive(ActiveFlags(b))
  }

  /** One pair of the enemy-versus-bullet pass: resolved when its bullet is
      active (both are killed and an explosion is appended), skipped otherwise. */
  lemma BulletPassStep(
    hits: seq<(nat, nat)>, i: nat, resolved: seq<nat>,
    b0: seq<Bullet>, b: seq<Bullet>, e0: seq<Enemy>, e: seq<Enemy>, x0: seq<Explosion>, x: seq<Explosion>)
    requires BulletPassUpTo(hits, i, resolved, b0, b, e0, e, x0, x)
    requires i < |hits|
    ensures var (k, j) := hits[i];
      if b[j].active then
        BulletPassUpTo(hits, i + 1, resolved + [i], b0, b[j := b[j].(active := false)],
                       e0, e[k := e[k].(active := false)], x0, x + [Blast(e[k])])
      else
        BulletPassUpTo(hits, i + 1, resolved, b0, b, e0, e, x0, x)
  {
    var (k, j) := hits[i];
    assert b[j].active <==> Resolves(hits, i, b0);
    if b[j].active {
      KillCount(b, j);
      forall k' | 0 <= k' < |e| {
        SparedAppend(hits, resolved, i, k');
      }
      var x' := x + [Blast(e[k])];
      assert x'[..|x0|] == x0;
      assert Blast(e[k]) == Blast(e0[k]);
    }
  }

  class World {
    /** Size of the field. */
    const width: int
    const height: int

    /** The bullet group, at most `BulletCapacity` members. */
    var bullets: seq<Bullet>
    /** The enemy group, at most `EnemyCapacity` members. */
    var enemies: seq<Enemy>
    /** The explosion group, without a maximum size. */
    var explosions: seq<Explosion>

    /** The player ship. */
    var playerX: real
    var playerY: real
    var playerVx: real
    var accelX: real
    var bank: real
    var scaleX: real
    var angle: real

    /** Time after which the next shot may leave. */
    var bulletTimer: real
    /** Time at which the pending enemy launch is due. */
    var enemyDue: real

    ghost predicate Valid()
      reads this
    {
      && |bullets| <= BulletCapacity
      && |enemies| <= EnemyCapacity
      && (forall k :: 0 <= k < |enemies| ==> enemies[k].hasTrail)
      && -MaxSpeed <= playerVx <= MaxSpeed
    }

    /** The scene's creation: empty groups, the ship centred near the bottom at
        rest, the timer at 0, and the first enemy launch. */
    constructor (width: int, height: int, now: real, delay: int, spawnX: int, spawnVx: int)
      requires MinEnemySpacing <= delay <= MaxEnemySpacing
      requires 0 <= spawnX <= width
      requires -EnemyMaxVx <= spawnVx <= EnemyMaxVx
      ensures Valid()
      ensures this.width == width && this.height == height
      ensures bullets == [] && explosions == []
      ensures enemies == [Respawn(FreshEnemy, spawnX, spawnVx)]
      ensures playerX == width as real / 2.0 && playerY == height as real - 100.0
      ensures playerVx == 0.0 && accelX == 0.0 && bank == 0.0 && scaleX == 1.0 && angle == 0.0
      ensures bulletTimer == 0.0 && enemyDue == now + delay as real
    {
      this.width := width;
      this.height := height;
      bullets := [];
      enemies := [];
      explosions := [];
      playerX := width as real / 2.0;
      playerY := height as real - 100.0;
      playerVx := 0.0;
      accelX := 0.0;
      bank := 0.0;
      scaleX := 1.0;
      angle := 0.0;
      bulletTimer := 0.0;
      enemyDue := now;
      new;
      LaunchGreenEnemy(now, delay, spawnX, spawnVx);
    }

    /** Keeps the ship `Margin` away from the side edges (the right edge is
        tested first) and stops its horizontal acceleration. */
    method ClampPlayer()
      requires Valid()
      modifies this`playerX, this`accelX
      ensures Valid()
      ensures accelX == 0.0
      ensures playerX >= Margin
      ensures width as real >= 2.0 * Margin ==> playerX <= width as real - Margin
      ensures Margin <= old(playerX) <= width as real - Margin ==> playerX == old(playerX)
      ensures old(playerX) > width as real - Margin ==>
                playerX == (if width as real - Margin < Margin then Margin else width as real - Margin)
      ensures old(playerX) < Margin && old(playerX) <= width as real - Margin ==> playerX == Margin
    {
      accelX := 0.0;
      if playerX > width as real - Margin {
        playerX := width as real - Margin;
        accelX := 0.0;
      }
      if playerX < Margin {
        playerX := Margin;
        accelX := 0.0;
      }
    }

    /** The bullet a shot puts in its slot: at the ship, shifted sideways by the
        offset that the ship's tilt gives, moving along the direction given plus
        the ship's own horizontal velocity. */
    function Shot(offset: real, dirVx: real, dirVy: real): Bullet
      reads this
    {
      Bullet(true, playerX + offset, playerY, dirVx + playerVx, dirVy)
    }

    /** A shot: only strictly after the cooldown deadline, and only when the
        group hands out a member; a shot that leaves re-arms the deadline.
        `offset` stands for the sine of the ship's tilt scaled by 20 and
        `(dirVx, dirVy)` for the velocity of length `BulletSpeed` along the tilt. */
    method FireBullet(now: real, offset: real, dirVx: real, dirVy: real)
      requires Valid()
      requires -MaxBulletOffset <= offset <= MaxBulletOffset
      requires dirVx * dirVx + dirVy * dirVy == BulletSpeed * BulletSpeed
      modifies this`bullets, this`bulletTimer
      ensures Valid()
      ensures now <= old(bulletTimer) ==> bullets == old(bullets) && bulletTimer == old(bulletTimer)
      ensures var a := Pool.Acquire(ActiveFlags(old(bullets)), BulletCapacity);
        now > old(bulletTimer) && a.Exhausted? ==> bullets == old(bullets) && bulletTimer == old(bulletTimer)
      ensures var a := Pool.Acquire(ActiveFlags(old(bullets)), BulletCapacity);
        now > old(bulletTimer) && !a.Exhausted? ==>
          && bullets == Pool.Install(old(bullets), a, Shot(offset, dirVx, dirVy))
          && bulletTimer == now + BulletSpacing
          && Pool.CountActive(ActiveFlags(bullets)) == Pool.CountActive(ActiveFlags(old(bullets))) + 1
      ensures now > old(bulletTimer) ==>
        (bulletTimer == old(bulletTimer) <==> Pool.CountActive(ActiveFlags(old(bullets))) == BulletCapacity)
    {
      Pool.ExhaustedIffAllTaken(ActiveFlags(bullets), BulletCapacity);
      if now > bulletTimer {
        var flags := ActiveFlags(bullets);
        var a := Pool.Acquire(flags, BulletCapacity);
        if !a.Exhausted? {
          Pool.AcquireActivatesOne(flags, BulletCapacity);
          bullets := Pool.Install(bullets, a, Shot(offset, dirVx, dirVy));
          assert ActiveFlags(bullets) == Pool.Install(flags, a, true);
          bulletTimer := now + BulletSpacing;
        }
      }
    }

    /** Walks the live list of bullets and destroys, in place, those outside
        the field; a destroyed bullet leaves the list and the next one moves
        into its index. */
    method CleanUpBullets()
      requires Valid()
      modifies this`bullets
      ensures Valid()
      ensures bullets == Cull(old(bullets), width, height)
      ensures RemovesOnlyOutside(old(bullets), bullets, width, height)
      ensures Inside(bullets, width, height) == Inside(old(bullets), width, height)
      ensures (forall i :: 0 <= i < |old(bullets)| ==> InField(old(bullets)[i], width, height)) ==> bullets == old(bullets)
    {
      var list := bullets;
      ghost var kept := Cull(list, width, height);
      var i := 0;
      while i < |list|
        invariant 0 <= i <= |list| + 1
        invariant |list| <= |old(bullets)|
        invariant i <= |list| ==> kept == list[..i] + Cull(list[i..], width, height)
        invariant i == |list| + 1 ==> kept == list
        decreases |list| + 1 - i
      {
        AfterFirstTest(list, i, width, height);
        if OutX(list[i], width) {
          list := list[..i] + list[i + 1..];
        }
        AfterSecondTest(list, i, width, height);
        if i < |list| && OutY(list[i], height) {
          list := list[..i] + list[i + 1..];
        }
        AfterIncrement(list, i, width, height);
        i := i + 1;
      }
      if i <= |list| {
        assert list[..i] == list;
      }
      CullKeepsInside(old(bullets), width, height);
      bullets := list;
    }

    /** The enemy a launch makes of member `e`: active, half size, just above
        the top edge at the drawn x, moving down at `EnemySpeed` with the drawn
        horizontal speed and drag 100. A trail is attached, at the enemy's
        position, only if the member has none; an existing trail is left where
        it is. */
    function Respawn(e: Enemy, spawnX: int, spawnVx: int): (r: Enemy)
      requires 0 <= spawnX <= width
      requires -EnemyMaxVx <= spawnVx <= EnemyMaxVx
      ensures r.active && r.hasTrail
      ensures 0.0 <= r.x <= width as real && r.y == EnemySpawnY
      ensures -EnemyMaxVx as real <= r.vx <= EnemyMaxVx as real && r.vy == EnemySpeed
      ensures r.drag == EnemyDrag && r.scale == EnemyScale
      ensures e.hasTrail ==> r.trailX == e.trailX && r.trailY == e.trailY
      ensures !e.hasTrail ==> r.trailX == r.x && r.trailY == r.y
    {
      var placed := e.(active := true, scale := EnemyScale, x := spawnX as real, y := EnemySpawnY, vx := 0.0, vy := 0.0);
      var trailed := if placed.hasTrail then placed
                     else placed.(hasTrail := true, trailX := placed.x, trailY := placed.y);
      trailed.(vx := spawnVx as real, vy := EnemySpeed, drag := EnemyDrag)
    }

    /** One enemy launch: the first inactive member of the enemy group, or a new
        one while the group is below its maximum size, becomes a fresh enemy; a
        full group launches nothing. Either way the next launch is due after
        `delay`. */
    method LaunchGreenEnemy(now: real, delay: int, spawnX: int, spawnVx: int)
      requires Valid()
      requires MinEnemySpacing <= delay <= MaxEnemySpacing
      requires 0 <= spawnX <= width
      requires -EnemyMaxVx <= spawnVx <= EnemyMaxVx
      modifies this`enemies, this`enemyDue
      ensures Valid()
      ensures enemyDue == now + delay as real
      ensures now + MinEnemySpacing as real <= enemyDue <= now + MaxEnemySpacing as real
      ensures var a := Pool.Acquire(EnemyFlags(old(enemies)), EnemyCapacity);
        match a
        case Reuse(k) => enemies == old(enemies)[k := Respawn(old(enemies)[k], spawnX, spawnVx)]
        case Grow => enemies == old(enemies) + [Respawn(FreshEnemy, spawnX, spawnVx)]
        case Exhausted => enemies == old(enemies)
      ensures !Pool.Acquire(EnemyFlags(old(enemies)), EnemyCapacity).Exhausted? ==>
        Pool.CountActive(EnemyFlags(enemies)) == Pool.CountActive(EnemyFlags(old(enemies))) + 1
      ensures Pool.Acquire(EnemyFlags(old(enemies)), EnemyCapacity).Exhausted? <==>
        Pool.CountActive(EnemyFlags(old(enemies))) == EnemyCapacity
    {
      var flags := EnemyFlags(enemies);
      Pool.ExhaustedIffAllTaken(flags, EnemyCapacity);
      var a := Pool.Acquire(flags, EnemyCapacity);
      match a {
        case Reuse(k) =>
          enemies := enemies[k := Respawn(enemies[k], spawnX, spawnVx)];
        case Grow =>
          enemies := enemies + [Respawn(FreshEnemy, spawnX, spawnVx)];
        case Exhausted =>
      }
      if !a.Exhausted? {
        Pool.AcquireActivatesOne(flags, EnemyCapacity);
        assert EnemyFlags(enemies) == Pool.Install(flags, a, true);
      }
      enemyDue := now + delay as real;
    }

    /** Visits every member of the enemy group, active or not: moves its trail
        just above it and deactivates it once it is below the bottom edge. */
    method UpdateEnemies()
      requires Valid()
      modifies this`enemies
      ensures Valid()
      ensures |enemies| == |old(enemies)|
      ensures forall k :: 0 <= k < |enemies| ==>
        enemies[k] == old(enemies)[k].(
          active := old(enemies)[k].active && old(enemies)[k].y <= height as real,
          trailX := old(enemies)[k].x,
          trailY := old(enemies)[k].y - TrailLift)
      ensures forall k :: 0 <= k < |enemies| && enemies[k].y > height as real ==> !enemies[k].active
    {
      for i := 0 to |enemies|
        invariant |enemies| == |old(enemies)|
        invariant forall k :: 0 <= k < i ==>
          enemies[k] == old(enemies)[k].(
            active := old(enemies)[k].active && old(enemies)[k].y <= height as real,
            trailX := old(enemies)[k].x,
            trailY := old(enemies)[k].y - TrailLift)
        invariant forall k :: i <= k < |enemies| ==> enemies[k] == old(enemies)[k]
      {
        var e := enemies[i];
        assert e.hasTrail;
        e := e.(trailX := e.x, trailY := e.y - TrailLift);
        if e.y > height as real {
          e := e.(active := false);
        }
        enemies := enemies[i := e];
      }
    }

    /** The player ship touched enemy `k`: the enemy is killed and an explosion
        starts. */
    method ShipCollide(k: nat)
      requires Valid()
      requires k < |enemies|
      modifies this`enemies, this`explosions
      ensures Valid()
      ensures enemies == old(enemies)[k := old(enemies)[k].(active := false)]
      ensures explosions == old(explosions) + [Blast(old(enemies)[k])]
    {
      var e := enemies[k];
      enemies := enemies[k := e.(active := false)];
      explosions := explosions + [Blast(e)];
    }

    /** Bullet `j` touched enemy `k`: both are killed and an explosion starts. */
    method HitEnemy(k: nat, j: nat)
      requires Valid()
      requires k < |enemies| && j < |bullets|
      modifies this`enemies, this`bullets, this`explosions
      ensures Valid()
      ensures enemies == old(enemies)[k := old(enemies)[k].(active := false)]
      ensures bullets == old(bullets)[j := old(bullets)[j].(active := false)]
      ensures explosions == old(explosions) + [Blast(old(enemies)[k])]
    {
      var e := enemies[k];
      enemies := enemies[k := e.(active := false)];
      bullets := bullets[j := bullets[j].(active := false)];
      explosions := explosions + [Blast(e)];
    }

    /** The pointer steers only from well inside the field. */
    predicate PointerInside(pointerX: real, pointerY: real)
    {
      && pointerX < width as real - PointerInset
      && pointerX > PointerInset
      && pointerY > PointerInset
      && pointerY < height as real - PointerInset
    }

    /** Steers the ship towards the pointer when the pointer is inside the
        field, then derives the bank ratio, squash and tilt from the ship's
        horizontal velocity. */
    method SteerAndBank(pointerX: real, pointerY: real)
      requires Valid()
      modifies this`playerVx, this`bank, this`scaleX, this`angle
      ensures Valid()
      ensures playerVx == if PointerInside(pointerX, pointerY) then SteeredVx(pointerX, playerX) else old(playerVx)
      ensures bank == BankOf(playerVx) && scaleX == ScaleXOf(bank) && angle == AngleOf(bank)
      ensures -1.0 <= bank <= 1.0 && 0.5 <= scaleX <= 1.0 && -BankAngle <= angle <= BankAngle
    {
      if PointerInside(pointerX, pointerY) {
        playerVx := SteeredVx(pointerX, playerX);
      }
      bank := BankOf(playerVx);
      scaleX := ScaleXOf(bank);
      angle := AngleOf(bank);
    }

    /** One frame up to the collision passes, in the game's order: clamp the
        ship, fire while the button or pointer is held, cull bullets, update
        enemies, steer and bank. */
    method Update(fireHeld: bool, now: real, offset: real, dirVx: real, dirVy: real, pointerX: real, pointerY: real)
      requires Valid()
      requires -MaxBulletOffset <= offset <= MaxBulletOffset
      requires dirVx * dirVx + dirVy * dirVy == BulletSpeed * BulletSpeed
      modifies this`playerX, this`accelX, this`bullets, this`bulletTimer, this`enemies
      modifies this`playerVx, this`bank, this`scaleX, this`angle
      ensures Valid()
      ensures accelX == 0.0 && playerX >= Margin
      ensures width as real >= 2.0 * Margin ==> playerX <= width as real - Margin
      ensures !fireHeld ==> bullets == Cull(old(bullets), width, height) && bulletTimer == old(bulletTimer)
      ensures |enemies| == |old(enemies)|
      ensures forall k :: 0 <= k < |enemies| ==>
        enemies[k].active == (old(enemies)[k].active && old(enemies)[k].y <= height as real)
      ensures -1.0 <= bank <= 1.0 && 0.5 <= scaleX <= 1.0 && -BankAngle <= angle <= BankAngle
    {
      ClampPlayer();
      if fireHeld {
        FireBullet(now, offset, dirVx, dirVy);
      }
      CleanUpBullets();
      UpdateEnemies();
      SteerAndBank(pointerX, pointerY);
    }

    /** The ship-versus-enemy overlap pass: `hits` lists, in the order the
        physics engine reports them, the enemy members the ship overlaps; a
        report is resolved only while its enemy is active. `struck` names, in
        order, the positions in `hits` of the reports that exploded. */
    method OverlapShip(hits: seq<nat>) returns (ghost struck: seq<nat>)
      requires Valid()
      requires forall i :: 0 <= i < |hits| ==> hits[i] < |enemies|
      modifies this`enemies, this`explosions
      ensures Valid()
      ensures |enemies| == |old(enemies)|
      ensures forall k :: 0 <= k < |enemies| ==>
        enemies[k] == old(enemies)[k].(active := old(enemies)[k].active && k !in hits)
      ensures |explosions| == |old(explosions)| + |struck|
      ensures explosions[..|old(explosions)|] == old(explosions)
      ensures forall n :: 0 <= n < |struck| ==>
        && struck[n] < |hits| && Strikes(hits, struck[n], old(enemies))
        && explosions[|old(explosions)| + n] == Blast(old(enemies)[hits[struck[n]]])
      ensures forall n, m :: 0 <= n < m < |struck| ==> struck[n] < struck[m]
      ensures forall i :: 0 <= i < |hits| && Strikes(hits, i, old(enemies)) ==> i in struck
      ensures |struck| == Pool.CountActive(EnemyFlags(old(enemies))) - Pool.CountActive(EnemyFlags(enemies))
    {
      struck := [];
      for i := 0 to |hits|
        invariant Valid()
        invariant |enemies| == |old(enemies)|
        invariant forall k :: 0 <= k < |enemies| ==>
          enemies[k] == old(enemies)[k].(active := old(enemies)[k].active && k !in hits[..i])
        invariant |explosions| == |old(explosions)| + |struck|
        invariant explosions[..|old(explosions)|] == old(explosions)
        invariant forall n :: 0 <= n < |struck| ==>
          && struck[n] < i && Strikes(hits, struck[n], old(enemies))
          && explosions[|old(explosions)| + n] == Blast(old(enemies)[hits[struck[n]]])
        invariant forall n, m :: 0 <= n < m < |struck| ==> struck[n] < struck[m]
        invariant forall i' :: 0 <= i' < i && Strikes(hits, i', old(enemies)) ==> i' in struck
        invariant |struck| == Pool.CountActive(EnemyFlags(old(enemies))) - Pool.CountActive(EnemyFlags(enemies))
      {
        var k := hits[i];
        assert hits[..i + 1] == hits[..i] + [k];
        assert enemies[k].active <==> Strikes(hits, i, old(enemies));
        if enemies[k].active {
          Pool.CountActiveUpdate(EnemyFlags(enemies), k, false);
          ghost var wasEnemies := enemies;
          ShipCollide(k);
          assert EnemyFlags(enemies) == EnemyFlags(wasEnemies)[k := false];
          struck := struck + [i];
        }
      }
      assert hits[..|hits|] == hits;
    }

    /** The enemy-versus-bullet overlap pass: `hits` lists, in the order the
        physics engine reports them, pairs (enemy member, bullet member) that
        overlap. The pass's guard reads the active flag of its second argument,
        which is the bullet: a pair is resolved while its bullet is active,
        whether or not its enemy still is. `resolved` names, in order, the
        pairs that were resolved. */
    method OverlapBullets(hits: seq<(nat, nat)>) returns (ghost resolved: seq<nat>)
      requires Valid()
      requires forall i :: 0 <= i < |hits| ==> hits[i].0 < |enemies| && hits[i].1 < |bullets|
      modifies this`enemies, this`bullets, this`explosions
      ensures Valid()
      ensures |enemies| == |old(enemies)| && |bullets| == |old(bullets)|
      ensures forall j :: 0 <= j < |bullets| ==>
        bullets[j] == old(bullets)[j].(active := old(bullets)[j].active
                                                  && forall i :: 0 <= i < |hits| ==> hits[i].1 != j)
      ensures |explosions| == |old(explosions)| + |resolved|
      ensures explosions[..|old(explosions)|] == old(explosions)
      ensures forall n :: 0 <= n < |resolved| ==>
        && resolved[n] < |hits| && Resolves(hits, resolved[n], old(bullets))
        && explosions[|old(explosions)| + n] == Blast(old(enemies)[hits[resolved[n]].0])
      ensures forall n, m :: 0 <= n < m < |resolved| ==> resolved[n] < resolved[m]
      ensures forall k :: 0 <= k < |enemies| ==>
        enemies[k] == old(enemies)[k].(active := old(enemies)[k].active
                                                  && Spared(hits, resolved, k))
      ensures forall i :: 0 <= i < |hits| && Resolves(hits, i, old(bullets)) ==> i in resolved
      ensures |resolved| == Pool.CountActive(ActiveFlags(old(bullets))) - Pool.CountActive(ActiveFlags(bullets))
    {
      resolved := [];
      for i := 0 to |hits|
        invariant Valid()
        invariant BulletPassUpTo(hits, i, resolved, old(bullets), bullets, old(enemies), enemies, old(explosions), explosions)
      {
        var (k, j) := hits[i];
        BulletPassStep(hits, i, resolved, old(bullets), bullets, old(enemies), enemies, old(explosions), explosions);
        if bullets[j].active {
          HitEnemy(k, j);
          resolved := resolved + [i];
        }
      }
    }
  }
}
