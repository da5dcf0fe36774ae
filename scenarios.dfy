/** Scenarios and whole-world facts about the rules above. */
module Scenarios {
  import Pool
  import opened Bullets
  import opened Game

  /** Whatever the rules have done, no more than 30 bullets and 15 enemies are
      live at once. */
  lemma LiveWithinCapacity(w: World)
    requires w.Valid()
    ensures Pool.CountActive(ActiveFlags(w.bullets)) <= BulletCapacity
    ensures Pool.CountActive(EnemyFlags(w.enemies)) <= EnemyCapacity
  {
    Pool.CountActiveBound(ActiveFlags(w.bullets));
    Pool.CountActiveBound(EnemyFlags(w.enemies));
  }

  /** Holding fire from the start: nothing leaves at time 0 because the timer
      starts at 0 and the comparison is strict; a shot at 100 leaves; at 350,
      exactly 250 later, nothing leaves; just after 350 the second shot leaves. */
  method FireCooldown() returns (atZero: nat, atCooldown: nat, afterCooldown: nat)
    ensures atZero == 0 && atCooldown == 1 && afterCooldown == 2
  {
    var w := new World(800, 600, 0.0, MinEnemySpacing, 400, 0);
    w.FireBullet(0.0, 0.0, 0.0, -BulletSpeed);
    atZero := |w.bullets|;
    w.FireBullet(100.0, 0.0, 0.0, -BulletSpeed);
    w.FireBullet(350.0, 0.0, 0.0, -BulletSpeed);
    atCooldown := Pool.CountActive(ActiveFlags(w.bullets));
    w.FireBullet(351.0, 0.0, 0.0, -BulletSpeed);
    assert ActiveFlags(w.bullets) == [true, true];
    afterCooldown := Pool.CountActive(ActiveFlags(w.bullets));
  }

  /** Because the enemy-versus-bullet guard tests the bullet, a live bullet that
      overlaps an enemy the ship has already destroyed is spent on it and a
      second explosion appears. */
  method BulletHitsDeadEnemy() returns (explosions: nat, bulletLive: bool)
    ensures explosions == 2 && !bulletLive
  {
    var w := new World(800, 600, 0.0, MinEnemySpacing, 400, 0);
    ghost var struck := w.OverlapShip([0]);
    assert !w.enemies[0].active;
    w.FireBullet(1.0, 0.0, 0.0, -BulletSpeed);
    assert |w.bullets| == 1 && w.bullets[0].active;
    ghost var resolved := w.OverlapBullets([(0, 0)]);
    assert Resolves([(0, 0)], 0, [w.Shot(0.0, 0.0, -BulletSpeed)]);
    explosions := |w.explosions|;
    bulletLive := w.bullets[0].active;
  }
}
