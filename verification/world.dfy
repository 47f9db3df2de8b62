/** The game's entities as plain values, and each per-frame rule as a function of
    those values. The in-place list passes of the stage are proved against these
    functions; the lemmas here state what the rules guarantee. */
module World {
  import opened Rules
  import opened Collision
  import opened Selection

  /** Which side an entity fights on; the player's side is 0, so a zero-filled
      entity is on the player's side. */
  datatype Side = Player | Alien

  /** The data of an entity: position, size, velocity, health, reload counter
      and side. Sizes come from a texture query and are never negative. */
  datatype Ent = Ent(x: int, y: int, w: nat, h: nat, dx: int, dy: int, health: int, reload: int, side: Side)

  /** A zero-filled entity. */
  const Zero: Ent := Ent(0, 0, 0, 0, 0, 0, 0, 0, Player)

  /** The box handed to the collision test for an entity. */
  function Area(v: Ent): Box
  {
    Box(v.x, v.y, v.w, v.h)
  }

  /** One frame of motion by the entity's own velocity. */
  function Moved(v: Ent): Ent
  {
    v.(x := v.x + v.dx, y := v.y + v.dy)
  }

  /** Every entity of `vs` moved once. */
  function MoveAll(vs: seq<Ent>): seq<Ent>
  {
    seq(|vs|, k requires 0 <= k < |vs| => Moved(vs[k]))
  }

  // ---------------------------------------------------------------------------
  // The fighter pass, on the fighters' values after their move; index 0 is the
  // player, who heads the list.

  /** Fighter `k` rams the player: it is not the player and touches it. */
  predicate Rams(ms: seq<Ent>, k: nat)
    requires k < |ms|
  {
    k != 0 && Collides(Area(ms[0]), Area(ms[k]))
  }

  /** Fighter `f` has to go when the player is `p`: it is past the left edge by
      its whole width, or dead, or touching the player. */
  predicate Doomed(p: Ent, f: Ent)
  {
    f.x < -(f.w as int) || f.health == 0 || Collides(Area(p), Area(f))
  }

  /** Fighter `k` stays in the list: it is the player, or it is not doomed. */
  predicate Stays(ms: seq<Ent>, k: nat)
    requires k < |ms|
  {
    k == 0 || !Doomed(ms[0], ms[k])
  }

  function FighterKeeps(ms: seq<Ent>): seq<bool>
  {
    seq(|ms|, k requires 0 <= k < |ms| => Stays(ms, k))
  }

  function FighterRams(ms: seq<Ent>): seq<bool>
  {
    seq(|ms|, k requires 0 <= k < |ms| => Rams(ms, k))
  }

  /** The player survives the fighter pass whatever its health, and stays first. */
  lemma FighterPassKeepsPlayer<T>(fs: seq<T>, ms: seq<Ent>)
    requires |fs| == |ms| && fs != []
    ensures Select(fs, FighterKeeps(ms)) != [] && Select(fs, FighterKeeps(ms))[0] == fs[0]
  {
    SelectKeepsFirst(fs, FighterKeeps(ms));
  }

  /** A fighter that rams the player is removed in the same pass, so the points the
      pass scores never exceed the fighters it removes. */
  lemma RamsAreRemovals(ms: seq<Ent>)
    ensures forall k :: 0 <= k < |ms| && FighterRams(ms)[k] ==> !FighterKeeps(ms)[k]
    ensures CountTrue(FighterRams(ms)) + CountTrue(FighterKeeps(ms)) <= |ms|
  {
    CountDisjoint(FighterRams(ms), FighterKeeps(ms));
  }

  /** The pass never removes the player, so it scores at most one point per
      other fighter. */
  lemma RamPointsBound(ms: seq<Ent>)
    requires ms != []
    ensures CountTrue(FighterRams(ms)) < |ms|
  {
    CountFalseAt(FighterRams(ms), 0);
  }

  // ---------------------------------------------------------------------------
  // The bullet pass.

  /** Fighter `f` can be hit by bullet `b`: it is on the other side and the boxes
      overlap. Health plays no part. */
  predicate Targets(b: Ent, f: Ent)
  {
    f.side != b.side && Collides(Area(b), Area(f))
  }

  /** The position of the first fighter of `fs` that `b` hits, or |fs| if none. */
  function FirstTarget(b: Ent, fs: seq<Ent>): (j: nat)
    ensures j <= |fs|
    decreases |fs|
  {
    if fs == [] then 0
    else if Targets(b, fs[0]) then 0
    else 1 + FirstTarget(b, fs[1..])
  }

  /** The first target is a target, and no fighter before it is one. */
  lemma {:induction false} FirstTargetIsFirst(b: Ent, fs: seq<Ent>)
    ensures var j := FirstTarget(b, fs);
      && (forall k :: 0 <= k < j ==> !Targets(b, fs[k]))
      && (j < |fs| ==> Targets(b, fs[j]))
    decreases |fs|
  {
    if fs != [] && !Targets(b, fs[0]) {
      FirstTargetIsFirst(b, fs[1..]);
      forall k | 1 <= k < FirstTarget(b, fs)
        ensures !Targets(b, fs[k])
      {
        assert fs[k] == fs[1..][k - 1];
      }
    }
  }

  /** A bullet has a first target exactly when it hits some fighter. */
  lemma FirstTargetIffHit(b: Ent, fs: seq<Ent>)
    ensures FirstTarget(b, fs) < |fs| <==> exists k :: 0 <= k < |fs| && Targets(b, fs[k])
  {
    FirstTargetIsFirst(b, fs);
    if FirstTarget(b, fs) < |fs| {
      assert Targets(b, fs[FirstTarget(b, fs)]);
    }
  }

  /** `gs` is `fs` with possibly different health values. */
  ghost predicate SameButHealth(fs: seq<Ent>, gs: seq<Ent>)
  {
    |fs| == |gs| && forall k :: 0 <= k < |fs| ==> gs[k] == fs[k].(health := gs[k].health)
  }

  /** Damage done earlier in the pass does not change which fighter a bullet hits. */
  lemma {:induction false} FirstTargetIgnoresHealth(b: Ent, fs: seq<Ent>, gs: seq<Ent>)
    requires SameButHealth(fs, gs)
    ensures FirstTarget(b, gs) == FirstTarget(b, fs)
    decreases |fs|
  {
    if fs != [] {
      assert Targets(b, gs[0]) == Targets(b, fs[0]);
      assert SameButHealth(fs[1..], gs[1..]) by {
        forall k | 0 <= k < |fs| - 1 ensures gs[1..][k] == fs[1..][k].(health := gs[1..][k].health) {
          assert gs[1..][k] == gs[k + 1] && fs[1..][k] == fs[k + 1];
        }
      }
      FirstTargetIgnoresHealth(b, fs[1..], gs[1..]);
    }
  }

  /** One bullet's effect on the fighters: its first target, if any, drops to
      health 0. */
  function Strike(fs: seq<Ent>, b: Ent): (r: seq<Ent>)
    ensures |r| == |fs|
    ensures forall k :: 0 <= k < |fs| ==> r[k] == if k == FirstTarget(b, fs) then fs[k].(health := 0) else fs[k]
  {
    var j := FirstTarget(b, fs);
    if j < |fs| then fs[j := fs[j].(health := 0)] else fs
  }

  /** The fighters after the bullets `bs`, in list order, have struck. */
  function Damage(fs: seq<Ent>, bs: seq<Ent>): seq<Ent>
    decreases |bs|
  {
    if bs == [] then fs else Strike(Damage(fs, bs[..|bs| - 1]), bs[|bs| - 1])
  }

  /** Whether each bullet hits a fighter. */
  function BulletHits(fs: seq<Ent>, mbs: seq<Ent>): seq<bool>
  {
    seq(|mbs|, k requires 0 <= k < |mbs| => FirstTarget(mbs[k], fs) < |fs|)
  }

  /** Whether each bullet stays: it hit nothing and is not past the right edge. */
  function BulletKeeps(fs: seq<Ent>, mbs: seq<Ent>): seq<bool>
  {
    seq(|mbs|, k requires 0 <= k < |mbs| => !(FirstTarget(mbs[k], fs) < |fs|) && !(mbs[k].x > SCREEN_WIDTH))
  }

  /** Fighter `j` is the first target of at least one of the bullets `bs`. */
  ghost predicate Struck(fs: seq<Ent>, bs: seq<Ent>, j: int)
  {
    exists k :: 0 <= k < |bs| && FirstTarget(bs[k], fs) == j
  }

  /** One more bullet strikes the fighters it struck before and its own first target. */
  lemma StruckSnoc(fs: seq<Ent>, bs: seq<Ent>, j: int)
    requires bs != []
    ensures Struck(fs, bs, j) <==> Struck(fs, bs[..|bs| - 1], j) || FirstTarget(bs[|bs| - 1], fs) == j
  {
    var n := |bs| - 1;
    if Struck(fs, bs, j) {
      var k :| 0 <= k < |bs| && FirstTarget(bs[k], fs) == j;
      if k < n {
        assert bs[..n][k] == bs[k];
      }
    }
    if Struck(fs, bs[..n], j) {
      var k :| 0 <= k < n && FirstTarget(bs[..n][k], fs) == j;
      assert bs[k] == bs[..n][k];
    }
  }

  /** The damage the bullet pass deals, independently of the order of the bullets:
      a fighter that is the first target of some bullet has health 0, every other
      fighter keeps its health, and nothing else about any fighter changes. */
  lemma {:induction false} DamageByFirstTargets(fs: seq<Ent>, bs: seq<Ent>)
    ensures SameButHealth(fs, Damage(fs, bs))
    ensures forall j :: 0 <= j < |fs| ==> Damage(fs, bs)[j].health == if Struck(fs, bs, j) then 0 else fs[j].health
    decreases |bs|
  {
    if bs != [] {
      var n := |bs| - 1;
      DamageByFirstTargets(fs, bs[..n]);
      var d := Damage(fs, bs[..n]);
      FirstTargetIgnoresHealth(bs[n], fs, d);
      forall j | 0 <= j < |fs|
        ensures Damage(fs, bs)[j] == fs[j].(health := Damage(fs, bs)[j].health)
        ensures Damage(fs, bs)[j].health == if Struck(fs, bs, j) then 0 else fs[j].health
      {
        StruckSnoc(fs, bs, j);
      }
    }
  }

  /** The damage of one more bullet is that bullet's strike, which health changes
      made by the earlier bullets do not redirect. */
  lemma DamageStep(fs: seq<Ent>, mbs: seq<Ent>, i: nat)
    requires i < |mbs|
    ensures Damage(fs, mbs[..i + 1]) == Strike(Damage(fs, mbs[..i]), mbs[i])
    ensures FirstTarget(mbs[i], Damage(fs, mbs[..i])) == FirstTarget(mbs[i], fs)
    ensures SameButHealth(fs, Damage(fs, mbs[..i]))
  {
    assert mbs[..i + 1][..i] == mbs[..i];
    DamageByFirstTargets(fs, mbs[..i]);
    FirstTargetIgnoresHealth(mbs[i], fs, Damage(fs, mbs[..i]));
  }

  /** A bullet that hits is removed in the same pass, and the pass scores one point
      per hitting bullet. */
  lemma HitsAreRemovals(fs: seq<Ent>, mbs: seq<Ent>)
    ensures forall k :: 0 <= k < |mbs| && BulletHits(fs, mbs)[k] ==> !BulletKeeps(fs, mbs)[k]
    ensures CountTrue(BulletHits(fs, mbs)) + CountTrue(BulletKeeps(fs, mbs)) <= |mbs|
  {
    CountDisjoint(BulletHits(fs, mbs), BulletKeeps(fs, mbs));
  }

  /** A fighter already at health 0 still stops bullets and still scores: two
      bullets on one alien score two points. */
  lemma DeadFighterStillScores(f: Ent, b: Ent)
    requires f.side == Alien && b.side == Player && Collides(Area(b), Area(f))
    ensures CountTrue(BulletHits([f], [b, b])) == 2
    ensures Damage([f], [b, b]) == [f.(health := 0)]
  {
    assert BulletHits([f], [b, b]) == [true, true];
    assert [true, true][..1] == [true];
    assert [b, b][..1] == [b];
    assert Damage([f], [b]) == [f.(health := 0)];
    assert Targets(b, f.(health := 0));
  }

  /** The player is never a bullet's target: every bullet is the player's. */
  lemma PlayerNeverTargeted(b: Ent, p: Ent)
    requires b.side == Player && p.side == Player
    ensures !Targets(b, p)
  {
  }

  // ---------------------------------------------------------------------------
  // The player update.

  /** The five keys the player update reads. */
  datatype Controls = Controls(up: bool, down: bool, left: bool, right: bool, fire: bool)

  /** Velocities from the arrow keys (down beats up, right beats left) and one
      frame of reload cooldown. */
  function Steer(p: Ent, c: Controls): Ent
  {
    p.(dx := AxisVelocity(c.left, c.right), dy := AxisVelocity(c.up, c.down), reload := CoolDown(p.reload))
  }

  /** The player fires when the fire key is held and, after the cooldown, the
      reload counter is 0. */
  predicate Fires(p: Ent, c: Controls)
  {
    c.fire && Steer(p, c).reload == 0
  }

  /** The bullet fired from a player with values `s` (after steering): at the
      player's x, vertically centred on the player, flying right at bullet speed. */
  function NewBullet(s: Ent, bulletW: nat, bulletH: nat): (b: Ent)
    ensures b.side == Player && b.health == 1 && b.dx == PLAYER_BULLET_SPEED && b.dy == 0
    ensures b.x == s.x && b.w == bulletW && b.h == bulletH
    ensures b.y + bulletH / 2 == s.y + s.h / 2
  {
    Ent(s.x, s.y + (s.h / 2 - bulletH / 2), bulletW, bulletH, PLAYER_BULLET_SPEED, 0, 1, 0, Player)
  }

  /** The player's values after its own update: steered, reloaded if it fired, then
      moved once with each coordinate clamped to the margins. */
  function PlayerStep(p: Ent, c: Controls): (q: Ent)
  {
    var s := Steer(p, c);
    var r := if Fires(p, c) then s.(reload := PLAYER_RELOAD) else s;
    ClampedMove(r)
  }

  /** One move by the velocity with each coordinate clamped to the margins. */
  function ClampedMove(r: Ent): Ent
  {
    r.(x := Clamp(r.x + r.dx, PLAYER_MAX_X), y := Clamp(r.y + r.dy, PLAYER_MAX_Y))
  }

  /** The player update keeps the player inside the margins, keeps the reload
      counter in range, and fires exactly when the cooled-down counter is 0. */
  lemma PlayerStepBounds(p: Ent, c: Controls)
    requires 0 <= p.reload <= PLAYER_RELOAD
    ensures 0 <= PlayerStep(p, c).x <= PLAYER_MAX_X && 0 <= PlayerStep(p, c).y <= PLAYER_MAX_Y
    ensures 0 <= PlayerStep(p, c).reload <= PLAYER_RELOAD
    ensures Fires(p, c) <==> c.fire && p.reload <= 1
    ensures Fires(p, c) ==> PlayerStep(p, c).reload == PLAYER_RELOAD
    ensures PlayerStep(p, c).w == p.w && PlayerStep(p, c).h == p.h && PlayerStep(p, c).health == p.health
  {
  }

  /** The player moves a second time in the fighter pass, unclamped: within a
      frame it can end up to one step outside the margins, but no further. */
  lemma PlayerFrameBounds(p: Ent, c: Controls)
    ensures -PLAYER_SPEED <= Moved(PlayerStep(p, c)).x <= PLAYER_MAX_X + PLAYER_SPEED
    ensures -PLAYER_SPEED <= Moved(PlayerStep(p, c)).y <= PLAYER_MAX_Y + PLAYER_SPEED
    ensures c.right && PlayerStep(p, c).x == PLAYER_MAX_X ==> Moved(PlayerStep(p, c)).x == PLAYER_MAX_X + PLAYER_SPEED
  {
  }

  /** The player's values after a run of frames (the player update followed by
      the fighter pass move). */
  function PlayerRun(p: Ent, cs: seq<Controls>): Ent
    decreases |cs|
  {
    if cs == [] then p else PlayerRun(Moved(PlayerStep(p, cs[0])), cs[1..])
  }

  /** After a shot, the reload counter counts down one per frame and no shot is
      fired while it does: with counter r, the next r - 1 frames cannot fire. */
  lemma {:induction false} ReloadCountsDown(p: Ent, cs: seq<Controls>)
    requires |cs| < p.reload
    ensures PlayerRun(p, cs).reload == p.reload - |cs|
    ensures forall n :: 0 <= n < |cs| ==> !Fires(PlayerRun(p, cs[..n]), cs[n])
    decreases |cs|
  {
    if cs != [] {
      var q := Moved(PlayerStep(p, cs[0]));
      assert q.reload == p.reload - 1;
      ReloadCountsDown(q, cs[1..]);
      forall n | 0 <= n < |cs| ensures !Fires(PlayerRun(p, cs[..n]), cs[n]) {
        if n > 0 {
          assert cs[..n][0] == cs[0] && cs[..n][1..] == cs[1..][..n - 1];
          assert cs[n] == cs[1..][n - 1];
        }
      }
    }
  }

  // ---------------------------------------------------------------------------
  // Enemy spawning.

  /** The enemy spawned from the given random values: at the right edge, at a
      random height, flying left, with health 1. */
  function NewEnemy(enemyW: nat, enemyH: nat, randY: nat, randDx: nat): (e: Ent)
    ensures e.x == SCREEN_WIDTH && 0 <= e.y < SCREEN_HEIGHT && -7 <= e.dx <= -4 && e.dy == 0
    ensures e.side == Alien && e.health == 1 && e.w == enemyW && e.h == enemyH
  {
    Ent(SCREEN_WIDTH, SpawnY(randY), enemyW, enemyH, SpawnDx(randDx), 0, 1, 0, Alien)
  }

  /** A frame spawns an enemy when the decremented timer is at or below 0. */
  predicate Spawns(timer: int)
  {
    timer - 1 <= 0
  }

  /** The spawn timer after one frame. */
  function NextTimer(timer: int, randDelay: nat): (t: int)
    ensures 0 <= timer <= 69 ==> 1 <= t <= 69
    ensures Spawns(timer) ==> 10 <= t <= 69
    ensures !Spawns(timer) ==> t == timer - 1
  {
    if Spawns(timer) then SpawnDelay(randDelay) else timer - 1
  }

  /** The timer after a run of frames with the given random delays. */
  function TimerRun(timer: int, delays: seq<nat>): int
    decreases |delays|
  {
    if delays == [] then timer else TimerRun(NextTimer(timer, delays[0]), delays[1..])
  }

  /** With timer t, the next t - 1 frames spawn nothing; after a spawn (t of 10 or
      more) that is at least 9 quiet frames. */
  lemma {:induction false} SpawnQuietFrames(timer: int, delays: seq<nat>)
    requires |delays| < timer
    ensures TimerRun(timer, delays) == timer - |delays|
    ensures forall n :: 0 <= n < |delays| ==> !Spawns(TimerRun(timer, delays[..n]))
    decreases |delays|
  {
    if delays != [] {
      SpawnQuietFrames(timer - 1, delays[1..]);
      forall n | 0 <= n < |delays| ensures !Spawns(TimerRun(timer, delays[..n])) {
        if n > 0 {
          assert delays[..n][0] == delays[0] && delays[..n][1..] == delays[1..][..n - 1];
        }
      }
    }
  }

  // ---------------------------------------------------------------------------
  // A whole frame of game logic on values.

  /** The values of the stage: the fighters and bullets in list order, the score,
      the spawn timer and the background offset. */
  datatype Frame = Frame(fighters: seq<Ent>, bullets: seq<Ent>, score: int, spawnTimer: int, background: int)

  /** The sizes the texture queries report for a bullet and for an enemy. */
  datatype Sizes = Sizes(bulletW: nat, bulletH: nat, enemyW: nat, enemyH: nat)

  /** The three random values a spawning frame draws, in the order it draws them:
      the height, the speed and the delay. */
  datatype Rolls = Rolls(y: nat, dx: nat, delay: nat)

  /** The player update on values: the player (the first fighter) is steered,
      fires and moves; a shot appends a new bullet. */
  function PlayerFrame(f: Frame, c: Controls, bulletW: nat, bulletH: nat): (g: Frame)
    requires f.fighters != []
    ensures |g.fighters| == |f.fighters| && g.fighters[1..] == f.fighters[1..]
  {
    var p := f.fighters[0];
    f.(fighters := f.fighters[0 := PlayerStep(p, c)],
       bullets := f.bullets + if Fires(p, c) then [NewBullet(Steer(p, c), bulletW, bulletH)] else [])
  }

  /** Replacing the first element twice leaves the second replacement. */
  lemma ReplaceFirstTwice<T>(s: seq<T>, a: T, b: T)
    requires s != []
    ensures s[0 := a][0 := b] == s[0 := b]
  {
  }

  /** The fighter pass on values. */
  function FighterFrame(f: Frame): Frame
  {
    var ms := MoveAll(f.fighters);
    f.(fighters := Select(ms, FighterKeeps(ms)), score := f.score + CountTrue(FighterRams(ms)))
  }

  /** The bullet pass on values. */
  function BulletFrame(f: Frame): Frame
  {
    var mbs := MoveAll(f.bullets);
    f.(fighters := Damage(f.fighters, mbs),
       bullets := Select(mbs, BulletKeeps(f.fighters, mbs)),
       score := f.score + CountTrue(BulletHits(f.fighters, mbs)))
  }

  /** Enemy spawning on values. */
  function SpawnFrame(f: Frame, enemyW: nat, enemyH: nat, r: Rolls): Frame
  {
    f.(fighters := f.fighters + if Spawns(f.spawnTimer) then [NewEnemy(enemyW, enemyH, r.y, r.dx)] else [],
       spawnTimer := NextTimer(f.spawnTimer, r.delay))
  }

  /** One frame of game logic: background, player, fighters, bullets, spawning.
      The fighter list never runs empty, since the player is never removed. */
  function Tick(f: Frame, c: Controls, sz: Sizes, r: Rolls): (g: Frame)
    requires f.fighters != []
    ensures g.fighters != []
  {
    var f1 := PlayerFrame(f.(background := ScrollBackground(f.background)), c, sz.bulletW, sz.bulletH);
    var ms := MoveAll(f1.fighters);
    FighterPassKeepsPlayer(ms, ms);
    var f2 := FighterFrame(f1);
    DamageByFirstTargets(f2.fighters, MoveAll(f2.bullets));
    SpawnFrame(BulletFrame(f2), sz.enemyW, sz.enemyH, r)
  }

  /** The frames of a run, one per element of `rs`, the keys of frame i being
      `cs[i]`. */
  function Ticks(f: Frame, cs: seq<Controls>, sz: Sizes, rs: seq<Rolls>): (g: Frame)
    requires f.fighters != [] && |cs| == |rs|
    ensures g.fighters != []
    decreases |rs|
  {
    if rs == [] then f else Tick(Ticks(f, cs[..|cs| - 1], sz, rs[..|rs| - 1]), cs[|cs| - 1], sz, rs[|rs| - 1])
  }

  /** A run one frame longer ends one frame later. */
  lemma TicksSnoc(f: Frame, cs: seq<Controls>, sz: Sizes, rs: seq<Rolls>, c: Controls, r: Rolls)
    requires f.fighters != [] && |cs| == |rs|
    ensures Ticks(f, cs + [c], sz, rs + [r]) == Tick(Ticks(f, cs, sz, rs), c, sz, r)
  {
    assert (cs + [c])[..|cs|] == cs;
    assert (rs + [r])[..|rs|] == rs;
  }

  /** All bullets of a frame are the player's. */
  ghost predicate PlayerBullets(bs: seq<Ent>)
  {
    forall k :: 0 <= k < |bs| ==> bs[k].side == Player
  }

  /** Bullets never hit the player: when every bullet is the player's, the player's
      values come through the damage unchanged. */
  lemma DamageSparesPlayer(fs: seq<Ent>, bs: seq<Ent>)
    requires fs != [] && fs[0].side == Player && PlayerBullets(bs)
    ensures |Damage(fs, bs)| == |fs| && Damage(fs, bs)[0] == fs[0]
  {
    DamageByFirstTargets(fs, bs);
    forall k | 0 <= k < |bs|
      ensures FirstTarget(bs[k], fs) != 0
    {
      FirstTargetIsFirst(bs[k], fs);
      PlayerNeverTargeted(bs[k], fs[0]);
    }
  }

  /** A selection of player bullets holds only player bullets. */
  lemma SelectedPlayerBullets(bs: seq<Ent>, keep: seq<bool>)
    requires |keep| == |bs| && PlayerBullets(bs)
    ensures PlayerBullets(Select(bs, keep))
  {
    SelectAtKeptIndices(bs, keep);
  }

  /** Over a frame the player stays first, undamaged and on its side, at the
      values its own update and the fighter pass move give it; the bullets stay
      the player's. */
  lemma TickKeepsPlayer(f: Frame, c: Controls, sz: Sizes, r: Rolls)
    requires f.fighters != [] && f.fighters[0].side == Player && PlayerBullets(f.bullets)
    ensures var g := Tick(f, c, sz, r);
      && g.fighters != [] && g.fighters[0] == Moved(PlayerStep(f.fighters[0], c))
      && g.fighters[0].side == Player && PlayerBullets(g.bullets)
  {
    var f1 := PlayerFrame(f.(background := ScrollBackground(f.background)), c, sz.bulletW, sz.bulletH);
    var f2 := FighterFrame(f1);
    var ms := MoveAll(f1.fighters);
    FighterPassKeepsPlayer(ms, ms);
    var mbs := MoveAll(f1.bullets);
    assert PlayerBullets(mbs);
    DamageSparesPlayer(f2.fighters, mbs);
    SelectedPlayerBullets(mbs, BulletKeeps(f2.fighters, mbs));
  }

  /** The score never drops in a frame, and it gains at most one point per fighter
      other than the player plus one per bullet in flight after the player update. */
  lemma TickScoreBounds(f: Frame, c: Controls, sz: Sizes, r: Rolls)
    requires f.fighters != []
    ensures var g := Tick(f, c, sz, r);
      f.score <= g.score <= f.score + (|f.fighters| - 1) + |f.bullets| + 1
  {
    var f1 := PlayerFrame(f.(background := ScrollBackground(f.background)), c, sz.bulletW, sz.bulletH);
    var ms := MoveAll(f1.fighters);
    RamPointsBound(ms);
    var f2 := FighterFrame(f1);
    var mbs := MoveAll(f1.bullets);
    HitsAreRemovals(f2.fighters, mbs);
  }

  /** The background offset and the spawn timer stay in their ranges from frame to
      frame. */
  lemma TickCounters(f: Frame, c: Controls, sz: Sizes, r: Rolls)
    requires f.fighters != [] && -SCREEN_WIDTH <= f.background <= 0 && 0 <= f.spawnTimer <= 69
    ensures var g := Tick(f, c, sz, r);
      && -SCREEN_WIDTH <= g.background <= 0 && 1 <= g.spawnTimer <= 69
      && g.background == ScrollBackground(f.background) && g.spawnTimer == NextTimer(f.spawnTimer, r.delay)
  {
    ScrollStaysInRange(f.background, 1);
  }
}
