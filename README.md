# Space shooter frame rules, modelled in Dafny

This project models the per-frame game rules of a small Phaser 3 space shooter
(`src/game/game.js`). The ship moves along the bottom of the field and shoots
upwards. Green enemies are launched from above the top edge at random
intervals. Collisions turn enemies into explosions.

The model is a `World` class (module `Game`, `game.dfy`). It holds:

- the bullet group, at most 30 members;
- the enemy group, at most 15 members;
- the explosion group, with no maximum size;
- the ship's `x`, `y`, horizontal velocity, horizontal acceleration, bank ratio, horizontal scale and angle;
- the fire cooldown deadline `bulletTimer`;
- the time at which the next enemy launch is due;
- the field's width and height.

Each game step is a method of `World` that updates these fields in place:

- clamp the ship to the field;
- fire a bullet;
- destroy the bullets that have left the field;
- launch an enemy;
- move trails and kill enemies that have passed the bottom edge;
- steer and bank the ship;
- the two collision passes.

Two pure modules support it:

- `Pool` (`pool.dfy`) models how a Phaser group hands out members. It returns the first inactive member. If every member is active and the group is below its maximum size, it creates a new member. Otherwise it returns nothing. The module also counts live members.
- `Bullets` (`bullets.dfy`) holds the bullet record and a functional model of the bullet cull loop, with lemmas about what that loop guarantees.

`Scenarios` (`scenarios.dfy`) holds whole-world facts and two concrete scenarios.

The clock, the random draws and the trigonometry are method parameters, and each `requires` gives its range:

- the time `now` is a real number of milliseconds;
- `integerInRange` draws are integers;
- `20 * sin(angle)` becomes an offset in [-20, 20];
- `velocityFromAngle` becomes a velocity vector of length 400.

The overlaps found by the physics engine are also inputs: a list of member indices for the ship pass, and a list of (enemy, bullet) index pairs for the bullet pass.

## Behaviour of the code that the model keeps

- Firing compares `now > bulletTimer` strictly. The timer starts at 0, so a shot at time 0 does nothing. A shot that finds the group full leaves the timer where it was.
- Out-of-field bullets are `destroy`ed, which removes them from the group. Bullets that hit an enemy are `kill`ed, which only deactivates them.
- The cull loop walks the live child list with an index. When the x test destroys a bullet, the next one moves into its index and gets only the y test. When the y test destroys a bullet, the next one moves into its index and the increment steps over it untested. So an out-of-field bullet can survive a frame (`Bullets.CullCanKeepAStray`), but an in-field bullet is never removed.
- The enemy loop visits every member of the enemy group, active or not. Every member has a trail, because a member gets its trail in the same launch that creates it (`Game.World.Valid`).
- The guard of the enemy-versus-bullet pass names its parameters `(bullet, enemy)`. The engine calls it with `(enemy, bullet)`, so it actually tests whether the bullet is active. A live bullet that overlaps an enemy that is already dead is still spent on it, and an extra explosion appears (`Scenarios.BulletHitsDeadEnemy`).
- No explosion is ever deactivated. So asking the explosion group for its first inactive member always creates a new one, which the model writes as an append.
- An enemy launch reschedules the next launch even when the enemy group is full.

## Model

| member | source | states |
|---|---|---|
| Pool.FirstInactive | src/game/game.js:172 | the index returned is that of an inactive member, and every member before it is active; it is the group size when all members are active |
| Pool.Acquire | src/game/game.js:140 | a group reuses its first inactive member; it creates a new member exactly when all members are active and the group is below its maximum size; otherwise it yields nothing |
| Pool.CountActiveBound | src/game/game.js:58 | the number of live members never exceeds the number of members |
| Pool.ExhaustedIffAllTaken | src/game/game.js:140-141 | for a group within its maximum size, acquisition fails exactly when every one of the maximum number of members is live |
| Pool.AcquireActivatesOne | src/game/game.js:139-151 | a successful acquisition makes exactly one more member live, keeps the group within its maximum size, and changes no member except one that was inactive |
| Pool.AcquireThenReleaseRestoresCount | src/game/game.js:140-144 | deactivating the member just acquired restores the previous live count |
| Bullets.AfterFirstTest | src/game/game.js:158-159 | the x test of an iteration destroys the bullet at the index when it is beyond a side edge, and the next bullet moves into that index |
| Bullets.AfterSecondTest | src/game/game.js:161-162 | the y test examines whichever bullet is now at the index, or nothing when the list has ended |
| Bullets.AfterIncrement | src/game/game.js:157 | the index increment keeps the bullet now at the index without testing it |
| Bullets.CullRemovesOnlyOutside | src/game/game.js:155-165 | the cull loop's result is its input with only out-of-field bullets deleted, in order |
| Bullets.RemovesOnlyOutsideKeepsInside | src/game/game.js:155-165 | deleting only out-of-field bullets keeps every in-field bullet in its original relative order, never lengthens the list and adds no bullet |
| Bullets.RemovesNothingInside | src/game/game.js:155-165 | when every bullet is inside the field, nothing is deleted |
| Bullets.CullKeepsInside | src/game/game.js:155-165 | the cull deletes only bullets with x > width, x < 0, y > height or y < 0; every in-field bullet survives in order; a field with no stray bullet is left as it is |
| Bullets.CullRemovesFirstStray | src/game/game.js:157-163 | a stray bullet preceded only by in-field bullets is always destroyed |
| Bullets.CullCanKeepAStray | src/game/game.js:157-163 | two adjacent bullets beyond a side edge: the second one moves into the first one's index, gets only the y test, and survives the frame |
| Game.Clamp | src/game/game.js:119 | the result lies in [lo, hi], equals v when v is in range, and equals the nearer bound otherwise |
| Game.SteeredVx | src/game/game.js:116-119 | the steering velocity stays in [-400, 400]; it is 2 times the pointer distance within 200 units, full speed towards the pointer beyond that, and has the sign of the pointer's direction |
| Game.BankOf | src/game/game.js:122 | for a velocity within the maximum speed the bank ratio is in [-1, 1], has the velocity's sign, and is ±1 at full speed |
| Game.ScaleXOf | src/game/game.js:123 | for a bank in [-1, 1] the horizontal scale is in [0.5, 1]; it is 1 exactly when level and 0.5 exactly at full bank |
| Game.AngleOf | src/game/game.js:124 | for a bank in [-1, 1] the tilt is in [-30, 30] degrees, in the bank's direction |
| Game.KillCount | src/game/game.js:234 | killing a live bullet leaves exactly one fewer live bullet |
| Game.BulletPassStep | src/game/game.js:129 | one pair of the bullet pass is resolved exactly when its bullet is still active; resolving kills both members and appends the enemy's explosion; the pass invariant is kept |
| Game.World.constructor | src/game/game.js:55-68 | creation gives empty bullet and explosion groups, the ship at (width/2, height-100) at rest, the fire timer at 0, and a first enemy launch |
| Game.World.ClampPlayer | src/game/game.js:95-104 | afterwards the horizontal acceleration is 0, x >= 50, and x <= width-50 whenever width >= 100; an x already in range is kept; the right edge is tested first |
| Game.World.FireBullet | src/game/game.js:136-153 | when now <= bulletTimer nothing changes; when the group is full nothing changes, not even the timer; otherwise the first free slot gets the shot, one more bullet is live and the timer becomes now + 250 |
| Game.World.CleanUpBullets | src/game/game.js:155-165 | the loop destroys bullets in place exactly as the cull function says, removes only out-of-field bullets and keeps every in-field bullet in order |
| Game.World.Respawn | src/game/game.js:174-193 | a launched enemy is active at y = -20 with 0 <= x <= width, vx in [-300, 300], vy = 300, drag 100, scale 0.5; a trail is attached at the enemy only if the member had none, and kept where it was otherwise |
| Game.World.LaunchGreenEnemy | src/game/game.js:167-200 | the next launch is always due 300 to 3000 ms later; the first inactive enemy, or a new one below 15, is launched and one more enemy is live; a full group is left unchanged |
| Game.World.UpdateEnemies | src/game/game.js:202-212 | every enemy's trail moves to (x, y-10); exactly the enemies with y > height are deactivated; nothing else changes |
| Game.World.ShipCollide | src/game/game.js:214-228 | the enemy is deactivated and one explosion is appended at its body centre, with its velocity and alpha 0.7 |
| Game.World.HitEnemy | src/game/game.js:230-245 | the enemy and the bullet are deactivated, the bullet stays in the group, and one explosion is appended at the enemy's body centre with its velocity and alpha 0.7 |
| Game.World.SteerAndBank | src/game/game.js:112-124 | the pointer sets the velocity only when it is strictly inside the 20-unit inset, otherwise the velocity is kept; bank, scale and angle follow the velocity and stay in [-1, 1], [0.5, 1] and [-30, 30] |
| Game.World.Update | src/game/game.js:93-127 | one frame before the collision passes keeps the world's invariant, leaves the ship clamped and banked within range, culls bullets and deactivates every enemy below the field |
| Game.World.OverlapShip | src/game/game.js:128 | exactly the live enemies that the ship overlaps are deactivated; a report is resolved exactly when its enemy is live and was not reported earlier in the pass; the explosions are appended one per resolved report, in report order; no explosion is removed |
| Game.World.OverlapBullets | src/game/game.js:129 | a pair is resolved exactly when its bullet is live and has not been spent earlier in the pass, even if its enemy is already dead; every overlapped live bullet is killed; one explosion is appended per resolved pair; no explosion is removed |
| Scenarios.LiveWithinCapacity | src/game/game.js:58-66 | in every reachable world at most 30 bullets and 15 enemies are live |
| Scenarios.FireCooldown | src/game/game.js:136-153 | holding fire: nothing leaves at time 0, the shot at 100 leaves, nothing leaves at 350, and a second shot leaves right after 350 |
| Scenarios.BulletHitsDeadEnemy | src/game/game.js:129 | a live bullet overlapping an enemy the ship already destroyed is killed and produces a second explosion |

## Left out

- Physics integration is the engine's: moving positions by velocity between frames, drag, maximum-velocity enforcement and the unused acceleration constant. The model keeps positions and velocities as state that only the modelled rules change.
- Overlap detection inside `physics.overlap` is the engine's. The overlapping pairs are inputs.
- The trigonometry is not modelled: the bullet's sideways offset `20 * sin(angle)` and `velocityFromAngle` are parameters. The enemy's orientation from `atan2` is not modelled, so an enemy record has no angle. The bullet's `angle` and `setVisible` are not stored.
- The enemy body's size (`setSize` to three quarters) and `enableBody` are not modelled. An enemy's `x` and `y` stand for the centre of its body.
- Cosmetics are not modelled: the starfield scroll, the particle emitter settings, `trail.killAll`, the ship trail's position, animations and `play`, asset loading, the window-size configuration and `console.log`.
- The launch timer is registered with `time.addEvent` and fires asynchronously. The model records when the next launch is due; the host calls `Game.World.LaunchGreenEnemy` at that time.
- The `if (!explosion.anims)` branches are not modelled. They are never taken, and taking one would throw.
- Real numbers stand for JavaScript doubles, so rounding is not modelled.
- Game.World.LaunchGreenEnemy and Game.World.constructor: require the drawn x to lie in [0, width], so a field narrower than 0 (a window under 16 pixels) is not covered.
- Game.World.Update: states selected facts about the new state (clamp, bullet cull when not firing, enemy flags, bank ranges, the invariant) rather than the full composition of its five steps. Each step's method states its own full effect.
- Game.World.Update: does not include the two overlap passes. The host calls `Game.World.OverlapShip` and then `Game.World.OverlapBullets` after `Update`, with the pairs the engine finds in the new state.
- The bundler configuration `webpack.netlify.config.js` has no game logic.
