# Side-scrolling shooter core, modelled in Dafny

This project models the game logic of `mains.c`, a small SDL side-scrolling
shooter. Two singly linked lists hold the game's entities. Each list has a
sentinel head embedded in the stage record and a tracked tail:

- the fighters: the player ship first, then the alien ships;
- the bullets: all of them the player's.

Once per frame `logic` runs five steps in this order:

1. scroll the background;
2. update the player: steer, fire, move with a clamp;
3. run the fighter pass: move each fighter, score rams, unlink the doomed ones;
4. run the bullet pass: move each bullet, strike the first fighter it overlaps, unlink the spent ones;
5. spawn enemies.

The project has seven modules:

- `Collision`: the box overlap test.
- `Rules`: the constants and the arithmetic of each rule, such as cooldown,
  axis velocity, clamp, background scroll and spawn ranges.
- `Selection`: keeping the elements of a sequence that a boolean mask selects.
  A pruning pass leaves exactly such a selection.
- `World`: the entities as values (`Ent`) and the stage as a value (`Frame`).
  Each frame step is a function here: `PlayerFrame`, `FighterFrame`,
  `BulletFrame`, `SpawnFrame`, and their composition `Tick`. The lemmas state
  what the rules guarantee.
- `Entities`: an entity is a heap object (`Entity`) that is also a list node.
  This module holds the `Linked(head, nodes, tail)` shape of a list with a
  sentinel head, and the bookkeeping of a pass that walks a list with a
  trailing pointer and unlinks nodes.
- `Game`: the class `Stage`, which holds the two list heads, the tails, the
  score, the player, the spawn timer and the background offset. Its methods
  are the game's functions, written imperatively with the same loops, branches
  and pointer updates. Each method is proved against the function in `World`.
  `Stage.Logic` ends with the stage's values equal to `Tick` of its values
  before, for the keys held at the start of the frame. The stage owns a set of
  nodes, `Nodes`: both heads and every node ever linked into either list. A
  frame changes only the stage and those nodes, and adds only new ones, so
  frames can run one after another. `RunFrames` is the main loop: before each
  frame it polls that frame's events into the key table, and it stops at a
  quit request.
- `Input`: the key table, its two event handlers and the event poll of
  `doInput`.
- `Text`: the glyph layout loop of the bitmap-font text routine.

The model keeps these behaviours of the code as written:

- The player is created with health 0. The fighter pass never removes the
  player, because its removal test excludes the player before looking at
  health.
- The player moves twice per frame: once in its own update, where it is
  clamped, and again in the fighter pass, where it is not clamped.
  `World.PlayerFrameBounds` bounds the overshoot to one step.
- An alien that rams the player scores a point and is removed.
- `bulletHitFighter` ignores health. A fighter already at health 0 still stops
  a bullet and still scores; `World.DeadFighterStillScores` shows this.
- The player's clamp uses the literal margin 40 (`SCREEN_WIDTH - 40`,
  `SCREEN_HEIGHT - 40`), not the sprite size, and so does the model.

## Model

| member | source | states |
|---|---|---|
| `Collision.Collides` | mains.c:562-565 | The MAX/MIN overlap test holds exactly when both boxes have a positive size and their open intervals intersect on both axes, edge by edge. |
| `Collision.CollidesSymmetric` | mains.c:562-565 | The overlap test does not depend on the order of the two boxes. |
| `Collision.TouchingNeverCollides` | mains.c:562-565 | Boxes that only share an edge do not collide. |
| `Collision.DegenerateNeverCollides` | mains.c:562-565 | A box of zero width or height collides with nothing. |
| `Rules.CoolDown` | mains.c:379-382 | The reload counter drops by one while it is positive and never goes below 0 from there. Otherwise it is unchanged. |
| `Rules.AxisVelocity` | mains.c:384-402 | For each axis: the positive key wins when both keys are held, the negative key alone gives minus the speed, and no key gives 0. |
| `Rules.Clamp` | mains.c:410-418 | The result always lies in [0, limit]. A value strictly inside is kept; values at or beyond a bound snap to that bound. |
| `Rules.ScrollBackground` | mains.c:594-600 | The offset stays in [-1280, 0]. It drops by one each frame and wraps to 0 once it falls below -1280. |
| `Rules.ScrollStaysInRange` | mains.c:594-600 | The offset stays in range for any number of frames. |
| `Rules.ScrollPeriod` | mains.c:594-600 | The scroll is periodic: from 0 it returns to 0 after 1281 frames. |
| `Rules.SpawnY` | mains.c:517 | A spawned enemy's height lies in [0, 720). |
| `Rules.SpawnDx` | mains.c:521 | A spawned enemy flies left at 4 to 7 pixels per frame. |
| `Rules.SpawnDelay` | mains.c:526 | The delay to the next spawn is 10 to 69 frames. |
| `Rules.SpawnRangesReached` | mains.c:517-526 | Every value in each of the three ranges is produced by some random value. |
| `World.FighterPassKeepsPlayer` | mains.c:436-449 | The fighter pass keeps the player, whatever its health, as the first fighter. |
| `World.RamsAreRemovals` | mains.c:431-436 | Every fighter that scores by ramming is removed in the same pass. Rams plus survivors never exceed the number of fighters. |
| `World.RamPointsBound` | mains.c:431-434 | The player never rams itself, so a pass scores fewer points than there are fighters. |
| `World.FirstTarget` | mains.c:571-582 | The position found is at most the list length. `World.FirstTargetIsFirst` and `World.FirstTargetIffHit` state that it is the first fighter the bullet can hit, or the length when there is none. |
| `World.FirstTargetIsFirst` | mains.c:571-582 | No fighter before the first target is a target, and the first target, if any, is one. |
| `World.FirstTargetIffHit` | mains.c:571-586 | A bullet has a first target exactly when some fighter is a target. |
| `World.FirstTargetIgnoresHealth` | mains.c:573 | Changing fighters' health does not change which fighter a bullet hits. |
| `World.Strike` | mains.c:573-577 | A bullet's first target drops to health 0, and every other fighter is unchanged. |
| `World.Damage` | mains.c:454-479 | The fighters after the bullets strike in list order. `World.DamageByFirstTargets` describes the result without the order, and `World.DamageStep` gives it one bullet at a time, as the pass runs. |
| `World.DamageByFirstTargets` | mains.c:454-479 | After the bullet pass, a fighter that is some bullet's first target has health 0, and every other fighter keeps its health. Nothing but health changes for any fighter. |
| `World.DamageStep` | mains.c:463-466 | Each further bullet adds its own strike, aimed as if no earlier damage had occurred. |
| `World.HitsAreRemovals` | mains.c:466-473 | Every bullet that hits is removed. Hits plus surviving bullets never exceed the number of bullets. |
| `World.DeadFighterStillScores` | mains.c:567-587 | Two bullets on the same alien both stop and both score, even though the first already zeroed its health. |
| `World.PlayerNeverTargeted` | mains.c:573 | A player bullet never targets the player. |
| `World.NewBullet` | mains.c:490-499 | A new bullet is the player's, with health 1. It flies right at speed 20, starts at the player's x, and is vertically centred on the player (up to integer halving). |
| `World.Steer` | mains.c:377-402 | Velocities from the arrow keys and one frame of cooldown. Its parts are `Rules.AxisVelocity` and `Rules.CoolDown`, and `World.PlayerStepBounds` states what it leads to. |
| `World.PlayerStep` | mains.c:375-419 | The player's values after its update. `World.PlayerStepBounds` and `World.ReloadCountsDown` state its bounds and its fire rate. |
| `World.PlayerStepBounds` | mains.c:375-419 | After the player update the player is within the margins and its reload counter is in [0, 8]. It fires exactly when fire is held and the counter was at most 1, and firing sets the counter to 8. |
| `World.PlayerFrameBounds` | mains.c:428-429 | The second, unclamped move in the fighter pass can take the player at most one step past the margins, and it does so when moving right at the edge. |
| `World.ReloadCountsDown` | mains.c:379-382 | After a shot with counter r, the counter drops by one per frame and no shot is fired in the next r - 1 frames. |
| `World.NewEnemy` | mains.c:515-524 | A new enemy is an alien with health 1. It starts at the right edge at a height in [0, 720) and flies left at 4 to 7 pixels per frame. |
| `World.NextTimer` | mains.c:509-527 | The timer just counts down when nothing spawns. After a spawn it is 10 to 69, and from any value in [0, 69] it stays in [1, 69]. |
| `World.SpawnQuietFrames` | mains.c:509-527 | With timer t, the next t - 1 frames spawn nothing. |
| `World.PlayerFrame` | mains.c:375-419 | The player update keeps the number of fighters and changes none but the first, the player. |
| `World.FighterFrame` | mains.c:421-452 | The fighter pass on values: survivors by `FighterKeeps` of the moved fighters, one point per ram. `World.FighterPassKeepsPlayer`, `World.RamsAreRemovals` and `World.RamPointsBound` state its properties. |
| `World.BulletFrame` | mains.c:454-479 | The bullet pass on values: survivors by `BulletKeeps`, fighters as `Damage` leaves them, one point per hit. `World.HitsAreRemovals`, `World.DamageByFirstTargets` and `World.DamageSparesPlayer` state its properties. |
| `World.SpawnFrame` | mains.c:505-529 | Spawning on values: an enemy is appended exactly when the timer spawns, and the timer moves on by `World.NextTimer`. |
| `World.Tick` | mains.c:362-373 | One frame: scroll, player update, fighter pass, bullet pass, spawning, in the code's order. The fighter list never runs empty. |
| `World.Ticks` | mains.c:156-169 | A run of frames, frame i with the keys `cs[i]` and the random values `rs[i]`. The fighter list never runs empty. |
| `World.TicksSnoc` | mains.c:156-169 | A run one frame longer ends one `Tick` later. |
| `World.DamageSparesPlayer` | mains.c:567-587 | When every bullet is the player's, the bullet pass leaves the player's values unchanged. |
| `World.TickKeepsPlayer` | mains.c:362-373 | Over a frame the player stays first, undamaged and on its side, with the values of its update followed by one move. Every bullet stays the player's. |
| `World.TickScoreBounds` | mains.c:362-373 | The score never drops in a frame. It gains at most one point per non-player fighter plus one per bullet, counting the new one. |
| `World.TickCounters` | mains.c:362-373 | The background offset and the spawn timer stay in their ranges from frame to frame. |
| `Entities.Entity.Zeroed` | mains.c:485-486 | A freshly allocated, zero-filled entity is on the player's side and has no link. |
| `Entities.LinkedSnoc` | mains.c:352-353 | Linking a new last node after the tail gives a well-formed list with that node as its tail. |
| `Entities.Advance` | mains.c:438-450 | One step of a pruning walk either keeps the cursor or points the trailing node past it. Either way, the head leads through exactly the kept nodes to the next cursor. |
| `Entities.PassLeavesList` | mains.c:421-452 | A finished pruning walk leaves a well-formed list of exactly the kept nodes, in order, ending at the trailing node. |
| `Game.Stage.constructor` | mains.c:326-360 | Stage set-up followed by player set-up. Both lists start with their tails at their heads, and the zeroed player at (100, 100) is the only fighter. The score, timer and offset are 0, and the player's health is 0. |
| `Game.Stage.AppendFighter` | mains.c:513-514 | Appending through the fighter tail adds the node at the end and makes it the tail. The stage invariant is kept. |
| `Game.Stage.AppendBullet` | mains.c:487-488 | Appending through the bullet tail adds the node at the end and makes it the tail. The stage invariant is kept. |
| `Game.Stage.FireBullet` | mains.c:481-503 | A shot appends one fresh bullet with the value `NewBullet` of the player and sets the player's reload counter to 8. Nothing else changes. |
| `Game.Stage.AddBullet` | mains.c:483-499 | The bullet list gains exactly the new bullet, and the rest of the stage is unchanged. |
| `Game.Stage.PlacedBullet` | mains.c:483-499 | The new bullet holds the values of `NewBullet` and is not linked yet. |
| `Game.Stage.Reload` | mains.c:501 | Only the player's reload counter changes, to 8. |
| `Game.Stage.DoPlayer` | mains.c:375-419 | The player update changes the stage exactly as `PlayerFrame` says for the held keys. A shot adds one fresh bullet at the end of the list, and the fighter list is unchanged. |
| `Game.Stage.SteerPlayer` | mains.c:377-402 | The player's velocity and counter become those of `Steer`, and nothing else changes. |
| `Game.Stage.MovePlayer` | mains.c:410-418 | The player makes one move, clamped on each axis to the margins, and nothing else changes. |
| `Game.Stage.DoBackground` | mains.c:594-600 | Only the background offset changes, by one frame of scrolling. |
| `Game.Stage.SpawnEnemies` | mains.c:505-529 | The spawn step changes the stage as `SpawnFrame` says. It appends one fresh enemy exactly when the decremented timer is at or below 0, and it leaves the bullets alone. |
| `Game.Stage.SpawnEnemy` | mains.c:509-524 | The fighter list gains exactly the new enemy, with the value `NewEnemy`, at its end. |
| `Game.Stage.PlacedEnemy` | mains.c:515-524 | The new enemy holds the values of `NewEnemy` and is not linked yet. |
| `Game.Stage.Logic` | mains.c:362-373 | A frame of logic keeps the stage invariant. It leaves the stage's values equal to `Tick` of the values before, so every `World.Tick*` lemma applies to the stage. It changes only the stage and the nodes it owns, and adds only fresh nodes to them. |
| `Game.Stage.ScrollAndSteer` | mains.c:364-366 | The scroll and the player update give `PlayerFrame` of the scrolled stage and add at most one fresh bullet. |
| `Game.Stage.Passes` | mains.c:368-372 | The fighter pass, the bullet pass and spawning give `SpawnFrame(BulletFrame(FighterFrame(...)))`. It changes only the stage and its nodes, and adds only fresh ones. |
| `Game.Stage.ShootAndSpawn` | mains.c:370-372 | The bullet pass followed by spawning gives `SpawnFrame(BulletFrame(...))`. It changes only the stage and its nodes, and adds only fresh ones. |
| `Game.Stage.HitPlayer` | mains.c:589-592 | The overlap test of a fighter with the player. `Game.Stage.FighterStep` states its use: a ram scores, and the rammer is unlinked. |
| `Game.Stage.FighterStep` | mains.c:426-449 | The fighter moves and scores a point exactly when it is not the player and overlaps the player. It is unlinked exactly when it is not the player and is off the left edge, dead or overlapping the player. The tail moves back when the last node goes. |
| `Game.Stage.StepFighterAt` | mains.c:426-449 | A fighter step changes no other fighter's data and no link other than the predecessor's. |
| `Game.Stage.VisitFighter` | mains.c:424-451 | One iteration carries the pass invariant: moved values so far, relinked survivors, trailing pointer, tail and rams so far. |
| `Game.Stage.WalkFighters` | mains.c:421-452 | The loop visits every node and finishes with the pass invariant at the end of the list. |
| `Game.Stage.FighterPassDone` | mains.c:421-452 | A finished pass leaves the survivors linked with the player first and the tail at the last survivor. Their values are the moved values, and the score gains one point per ram. |
| `Game.Stage.PruneFighters` | mains.c:421-452 | The fighter list becomes the selection of its nodes that the rule keeps for the moved values, and the points are the rams. |
| `Game.Stage.KeepFighters` | mains.c:421-452 | The same selection result, with the stage invariant kept. |
| `Game.Stage.DoFighters` | mains.c:421-452 | The fighter pass changes the stage exactly as `FighterFrame` says. |
| `Game.Stage.BulletHitFighter` | mains.c:567-587 | It reports a hit exactly when the bullet has a first target. The fighters then hold `Strike` of their values, the bullet's health drops to 0 and the score gains one point; without a hit nothing changes. |
| `Game.Stage.BulletStep` | mains.c:461-476 | The bullet moves, strikes its first target, and is unlinked exactly when it hit or is past the right edge. The tail moves back when the last node goes. |
| `Game.Stage.AdvanceBullet` | mains.c:459-478 | One iteration carries the walk state: kept bullets moved, links relinked, and fighters struck by this bullet. |
| `Game.Stage.VisitBullet` | mains.c:459-478 | One iteration carries the pass invariant: damage and points equal those of the bullets visited so far. |
| `Game.Stage.WalkBullets` | mains.c:454-479 | The loop leaves the kept bullets linked in order with their moved values. The fighters hold the damage of all bullets and the score gains one point per hit. |
| `Game.Stage.BulletWalkDone` | mains.c:454-479 | A finished walk gives the selection, the damage and the points of the whole list. |
| `Game.Stage.PruneBullets` | mains.c:454-479 | The bullet list becomes the selection of its nodes that the rule keeps for the moved values, and the fighters hold `Damage`. |
| `Game.Stage.KeepBullets` | mains.c:454-479 | The same result, with the stage invariant kept. |
| `Game.Stage.DoBullets` | mains.c:454-479 | The bullet nodes become the `Select` of the old nodes by `BulletKeeps` of the moved values, and the stage's values become `BulletFrame` of the old ones. |
| `Game.Keys` | mains.c:384-404 | The five keys the player update reads: up, down, left, right and fire. `Game.Stage.DoPlayer` is proved for these keys, read at the start of the update. They equal `Game.KeysIn` of the table as a value. |
| `Game.KeysIn` | mains.c:384-404 | The five keys held in a key table given as a value; `Game.Keys` equals it on the application's table. |
| `Game.FrameKeys` | mains.c:156-169 | The keys of each frame of a run, one per poll. `Game.FrameKeysAt` states that frame i holds the keys of the table after the first i + 1 polls. |
| `Game.FrameKeysAt` | mains.c:156-169 | Frame i of a run holds the keys that the table shows after the first i + 1 polls. |
| `Game.FrameKeysSnoc` | mains.c:156-169 | One more poll extends the table by that poll's events and the keys by one frame. |
| `Game.RunSnoc` | mains.c:156-169 | A run one frame longer ends one `Tick` later, with the keys held after that frame's poll. |
| `Game.Frame` | mains.c:158-163 | One pass of the loop: the poll updates the key table as `Input.Events` says and reports a quit request exactly when there is one. Without one, the stage becomes `Tick` of its values for the keys the poll leaves held. It keeps the invariant and touches only owned or fresh nodes. |
| `Game.RunFrames` | mains.c:156-169 | The main loop over a sequence of polls: it runs exactly `Input.QuitFrame` frames, that is, up to the first poll with a quit request. Each frame runs with the keys held after its own poll. The stage ends at `Ticks` of its old values for those keys. The key table ends as the polls read up to the quit request leave it. The invariant is kept, and only owned or fresh nodes are touched. |
| `Input.App.constructor` | mains.c:137 | The zeroed application record: a key table of 350 entries, none held. |
| `Input.App.Held` | mains.c:384-404 | Whether a key's table entry is non-zero, as each `if` on `app.keyboard` tests. `Game.Keys` reads the five keys through it. |
| `Input.KeyEvent` | mains.c:284-298 | A key event changes at most the addressed entry, and only for a non-repeat event whose scancode is within the table. |
| `Input.App.DoKeyUp` | mains.c:284-290 | A release event changes the table as `KeyEvent` with value 0 says. |
| `Input.Events` | mains.c:300-324 | The key table after one poll's events, read up to the first quit request. An entry that no press or release addresses keeps its value. |
| `Input.EventsAppend` | mains.c:300-324 | Two polls in a row, the first without a quit request, leave the table as one poll of both does. |
| `Input.App.DoInput` | mains.c:300-324 | The poll loop: it reports a quit request exactly when the events hold one, and leaves the table as `Input.Events` says. Presses and releases go through the two key handlers in the order they arrive. |
| `Input.TableAfter` | mains.c:156-169 | The key table after the polls of several frames, each applied in turn. |
| `Input.QuitFrame` | mains.c:156-169 | The frames the loop completes: every poll before it has no quit request, and the poll at it, when there is one, has one. |
| `Input.QuitFrameStep` | mains.c:308-310 | Below the quitting frame, a poll has a quit request exactly when it is the quitting frame. |
| `Input.App.DoKeyDown` | mains.c:292-298 | A press event changes the table as `KeyEvent` with value 1 says. |
| `Input.PressThenRelease` | mains.c:284-298 | Pressing then releasing a key leaves it released and every other key unchanged. A repeat event changes nothing. |
| `Text.StrLen` | mains.c:673 | The length is the position of the first NUL, or the whole buffer if there is none. |
| `Text.Printable` | mains.c:685-692 | Only characters from the font sheet are kept. |
| `Text.Layout` | mains.c:681-693 | The glyph copies of the loop, as a recursive definition. `Text.LayoutShape` gives the independent description: one per printable character, at x + 18k. |
| `Text.LayoutShape` | mains.c:681-693 | The layout has one glyph per printable character. The k-th glyph takes its source cell from that character, within the 59-cell sheet, and is drawn at x + 18k. |
| `Text.DrawTextLayout` | mains.c:681-693 | The glyph loop over the first strlen characters emits exactly `Layout` of that prefix. |

## Left out

- SDL set-up and tear-down, the window, the renderer, textures and their
  loading are left out. Each texture size query becomes a parameter: the
  player's size for the constructor, and the bullet and enemy sizes in
  `Sizes`.
- Rendering is left out: `prepareScene`, `presentScene`, the `blit`
  functions, and drawing of the background, fighters, bullets and HUD. The
  text routine is modelled only for the glyph copies it issues.
- Audio is left out: sound and music loading and playback, including the
  sounds of `doPlayer` and `doFighters`. They have no effect on game state.
- `capFrameRate`, and the scene calls and `draw` of the main loop, are left
  out. The loop runs `logic` through the function pointer `app.delegate.logic`;
  `Game.RunFrames` calls `Stage.Logic` directly.
- `Game.RunFrames`: the loop of `main` never ends by itself. The model runs
  one frame per element of its input, so it covers every finite prefix of a
  run. `exit(0)` on a quit request becomes the end of the loop.
- `SDL_PollEvent` is left out. The events one poll returns are the parameter
  of `Input.App.DoInput`, as a sequence of `Input.Event`. An
  `SDL_KeyboardEvent` becomes its two fields, `repeat` and `scancode`; event
  types other than quit, key press and key release become `Other`.
- `vsprintf` formatting in `drawText` is left out. The formatted buffer is
  the input of `Text.DrawTextLayout`.
- `rand()` is left out. The three values a spawning frame draws become the
  parameter `Rolls`, as non-negative numbers in the order they are drawn.
- Allocation failure of `malloc` is left out.
- `free` is left out: an unlinked node simply becomes unreachable.
- Entity positions and velocities are `float` in the code and `int` here.
  Every value the game stores in them is a small whole number, so the
  conversion to `int` in the `collision` calls is exact.
- Entity widths and heights are `nat`: they come from texture size queries,
  which report no negative size. So C's `/ 2` on them agrees with Dafny's.
- Integer overflow of the score is not modelled; the score is unbounded.
- The stage's counters `enemySpawnTimer` and `backgroundX`, and the `player`
  pointer, are file-level statics in the code. Here they are fields of
  `Stage`.
- `Game.Stage.Logic` requires the stage invariant `Valid()`, which the
  constructor establishes and every frame keeps. It includes the ranges
  [0, 8] for the reload counter, [-1280, 0] for the background and [0, 69]
  for the spawn timer.
- The key table is read once at the start of the player update rather than
  at each `if`. Nothing writes it during the update, so the values are the
  same.
- New bullets and enemies are filled in before they are linked rather than
  after. Nothing reads the list in between, so the result is the same.
- `logic` is proved in layers (`ScrollAndSteer`, `Passes`, `ShootAndSpawn`);
  the calls and their order are those of the code. `bulletHitFighter` is
  written as a search loop followed by the effect of the hit it finds; the
  effect is the same as the early return inside the loop.
