/** The game state: entities in two singly linked lists with sentinel heads and
    tracked tails, and the per-frame logic that moves, collides, prunes and
    spawns them in place. Each pass is proved against the value-level rule of
    module World. */
module Game {
  import opened Rules
  import opened Collision
  import opened Selection
  import opened World
  import opened Entities
  import Input

  /** The five keys the player update reads from the key table. They are the keys
      a table given as a value shows. */
  function Keys(app: Input.App): (c: Controls)
    requires app.Valid()
    reads app, app.keyboard
    ensures c == KeysIn(app.keyboard[..])
  {
    Controls(app.Held(SCANCODE_UP), app.Held(SCANCODE_DOWN), app.Held(SCANCODE_LEFT), app.Held(SCANCODE_RIGHT), app.Held(SCANCODE_SPACE))
  }

  /** The five keys held in the key table `table`. */
  function KeysIn(table: seq<int>): Controls
    requires |table| == MAX_KEYBOARD_KEYS
  {
    Controls(table[SCANCODE_UP] != 0, table[SCANCODE_DOWN] != 0, table[SCANCODE_LEFT] != 0, table[SCANCODE_RIGHT] != 0, table[SCANCODE_SPACE] != 0)
  }

  /** The keys held in each frame of a run that starts from the key table `table`
      and polls the events `input[i]` before frame i. */
  function FrameKeys(table: seq<int>, input: seq<seq<Input.Event>>): (cs: seq<Controls>)
    requires |table| == MAX_KEYBOARD_KEYS
    ensures |cs| == |input|
    decreases |input|
  {
    if input == [] then [] else FrameKeys(table, input[..|input| - 1]) + [KeysIn(Input.TableAfter(table, input))]
  }

  /** Frame i of a run holds the keys the table shows after the first i + 1 polls. */
  lemma {:induction false} FrameKeysAt(table: seq<int>, input: seq<seq<Input.Event>>, i: nat)
    requires |table| == MAX_KEYBOARD_KEYS && i < |input|
    ensures FrameKeys(table, input)[i] == KeysIn(Input.TableAfter(table, input[..i + 1]))
    decreases |input|
  {
    if i < |input| - 1 {
      FrameKeysAt(table, input[..|input| - 1], i);
      assert input[..|input| - 1][..i + 1] == input[..i + 1];
    } else {
      assert input[..i + 1] == input;
    }
  }

  /** A run one frame longer holds the keys of one more poll. */
  lemma FrameKeysSnoc(table: seq<int>, input: seq<seq<Input.Event>>, i: nat)
    requires |table| == MAX_KEYBOARD_KEYS && i < |input|
    ensures Input.TableAfter(table, input[..i + 1]) == Input.Events(Input.TableAfter(table, input[..i]), input[i])
    ensures FrameKeys(table, input[..i + 1]) == FrameKeys(table, input[..i]) + [KeysIn(Input.TableAfter(table, input[..i + 1]))]
  {
    assert input[..i + 1][..i] == input[..i];
  }

  class Stage {
    /** Sentinel heads. In the code they are embedded in the stage record; here
        they are two nodes of their own that stand for those embedded heads. They
        are never removed and carry no game data. */
    const fighterHead: Entity
    const bulletHead: Entity
    var fighterTail: Entity
    var bulletTail: Entity
    var score: int
    /** The player ship, also the first node of the fighter list. */
    const player: Entity
    var enemySpawnTimer: int
    var backgroundX: int

    /** The nodes of the two lists, in link order (the heads excluded). */
    ghost var fighters: seq<Entity>
    ghost var bullets: seq<Entity>
    /** Every node the stage has owned: both heads and every node ever linked
        into either list. It only grows, and only by new nodes. */
    ghost var Nodes: set<Entity>

    /** Both lists are well linked, share no node, and every bullet is the player's. */
    ghost predicate Lists()
      reads this, fighterHead, bulletHead, fighters, bullets
    {
      && Linked(fighterHead, fighters, fighterTail)
      && Linked(bulletHead, bullets, bulletTail)
      && fighterHead != bulletHead
      && fighterHead !in bullets
      && bulletHead !in fighters
      && (forall e :: e in fighters ==> e !in bullets)
      && (forall b :: b in bullets ==> b.side == Player)
    }

    /** The stage invariant: the player heads the fighter list and the counters
        stay within the ranges the frame logic keeps them in. */
    ghost predicate Valid()
      reads this, fighterHead, bulletHead, fighters, bullets
    {
      && Lists()
      && fighters != []
      && fighters[0] == player
      && player.side == Player
      && 0 <= player.reload <= PLAYER_RELOAD
      && -SCREEN_WIDTH <= backgroundX <= 0
      && 0 <= enemySpawnTimer <= 69
      && fighterHead in Nodes && bulletHead in Nodes
      && (forall e :: e in fighters ==> e in Nodes)
      && (forall b :: b in bullets ==> b in Nodes)
    }

    /** Stage set-up followed by player set-up: both lists empty with their tails
        at their heads, then the zeroed player appended as the only fighter.
        The player's health stays 0. */
    constructor (playerW: nat, playerH: nat)
      ensures Valid()
      ensures fresh(fighterHead) && fresh(bulletHead) && fresh(player)
      ensures bullets == [] && bulletTail == bulletHead
      ensures fighters == [player] && fighterTail == player
      ensures score == 0 && enemySpawnTimer == 0 && backgroundX == 0
      ensures Nodes == {fighterHead, bulletHead, player}
      ensures View(player) == Zero.(x := 100, y := 100, w := playerW, h := playerH)
    {
      var fh := new Entity.Zeroed();
      var bh := new Entity.Zeroed();
      fighterHead, bulletHead := fh, bh;
      fighterTail, bulletTail := fh, bh;
      fighters, bullets := [], [];
      score := 0;
      enemySpawnTimer := 0;
      backgroundX := 0;
      // the player: allocated zeroed, appended through the tail, then placed
      var p := new Entity.Zeroed();
      fh.next := p;
      fighterTail := p;
      fighters := [p];
      player := p;
      Nodes := {fh, bh, p};
      p.x := 100;
      p.y := 100;
      p.w, p.h := playerW, playerH;
      p.side := Player;
      assert Distinct([p]) && p.next == null;
    }

    /** Appending to the fighter list through its tail. */
    method AppendFighter(e: Entity)
      requires Valid()
      requires e !in fighters && e !in bullets && e != fighterHead && e != bulletHead && e.next == null
      modifies this`fighterTail, this`fighters, this`Nodes, fighterTail`next
      ensures Valid()
      ensures fighters == old(fighters) + [e] && fighterTail == e && Nodes == old(Nodes) + {e}
    {
      assert fighterTail !in bullets && fighterTail != bulletHead;
      DistinctAt(fighters);
      fighterTail.next := e;
      fighterTail := e;
      LinkedSnoc(fighterHead, fighters, e);
      fighters := fighters + [e];
      Nodes := Nodes + {e};
    }

    /** Appending to the bullet list through its tail. */
    method AppendBullet(e: Entity)
      requires Valid()
      requires e !in fighters && e !in bullets && e != fighterHead && e != bulletHead && e.next == null
      requires e.side == Player
      modifies this`bulletTail, this`bullets, this`Nodes, bulletTail`next
      ensures Valid()
      ensures bullets == old(bullets) + [e] && bulletTail == e && Nodes == old(Nodes) + {e}
    {
      assert bulletTail !in fighters && bulletTail != fighterHead;
      DistinctAt(bullets);
      bulletTail.next := e;
      bulletTail := e;
      LinkedSnoc(bulletHead, bullets, e);
      bullets := bullets + [e];
      Nodes := Nodes + {e};
    }

    /** The stage's game data as a value: the data of both lists in link order,
        and the counters. */
    ghost function Snapshot(): Frame
      reads this, fighters, bullets
    {
      Frame(Views(fighters), Views(bullets), score, enemySpawnTimer, backgroundX)
    }

    /** The snapshot is the frame value whose parts the stage holds. */
    lemma SnapshotIs(g: Frame)
      requires Views(fighters) == g.fighters && Views(bullets) == g.bullets
      requires score == g.score && enemySpawnTimer == g.spawnTimer && backgroundX == g.background
      ensures Snapshot() == g
    {
    }

    /** A shot: a zeroed bullet is appended to the bullet list and placed at the
        player, vertically centred on it, flying right; the player's reload
        counter is set. */
    method FireBullet(bulletW: nat, bulletH: nat)
      requires Valid()
      modifies this`bullets, this`bulletTail, this`Nodes, bulletTail`next, player`reload
      ensures Valid()
      ensures fighters == old(fighters) && bullets == old(bullets) + [bulletTail] && fresh(bulletTail)
      ensures Nodes == old(Nodes) + {bulletTail}
      ensures View(player) == old(View(player)).(reload := PLAYER_RELOAD)
      ensures Snapshot() == old(Snapshot()).(fighters := old(Snapshot()).fighters[0 := View(player)],
                                            bullets := old(Snapshot()).bullets + [NewBullet(old(View(player)), bulletW, bulletH)])
    {
      AddBullet(bulletW, bulletH);
      ghost var f1 := Snapshot();
      Reload();
      assert f1.fighters == old(Snapshot()).fighters;
    }

    /** The new bullet is filled in before it is linked; nothing else can see it
        until then. */
    method AddBullet(bulletW: nat, bulletH: nat)
      requires Valid()
      modifies this`bullets, this`bulletTail, this`Nodes, bulletTail`next
      ensures Valid()
      ensures fighters == old(fighters) && bullets == old(bullets) + [bulletTail] && fresh(bulletTail)
      ensures Nodes == old(Nodes) + {bulletTail}
      ensures Snapshot() == old(Snapshot()).(bullets := old(Snapshot()).bullets + [NewBullet(old(View(player)), bulletW, bulletH)])
    {
      ghost var f0 := Snapshot();
      var b := PlacedBullet(bulletW, bulletH);
      assert bulletTail !in fighters && forall k :: 0 <= k < |bullets| - 1 ==> bullets[k] != bulletTail;
      AppendBullet(b);
      assert Views(fighters) == f0.fighters;
      ViewsAre(bullets, f0.bullets + [View(b)]);
      SnapshotIs(f0.(bullets := f0.bullets + [View(b)]));
    }

    /** A zeroed bullet placed at the player, vertically centred on it, flying right. */
    method PlacedBullet(bulletW: nat, bulletH: nat) returns (b: Entity)
      ensures fresh(b) && b.next == null
      ensures View(b) == NewBullet(View(player), bulletW, bulletH)
    {
      b := new Entity.Zeroed();
      b.x := player.x;
      b.y := player.y;
      b.dx := PLAYER_BULLET_SPEED;
      b.health := 1;
      b.w, b.h := bulletW, bulletH;
      b.y := b.y + (player.h / 2 - b.h / 2);
      b.side := Player;
    }

    /** The player's reload counter is set after a shot. */
    method Reload()
      requires Valid()
      modifies player`reload
      ensures Valid()
      ensures View(player) == old(View(player)).(reload := PLAYER_RELOAD)
      ensures Snapshot() == old(Snapshot()).(fighters := old(Snapshot()).fighters[0 := View(player)])
    {
      DistinctAt(fighters);
      assert player !in bullets;
      player.reload := PLAYER_RELOAD;
      PlayerOnlyChanged();
    }

    /** The player update: velocities from the arrow keys (down beats up, right
        beats left), one frame of reload cooldown, a shot when the fire key is held
        and the counter is 0, then one move with each coordinate clamped to the
        margins. Only the player and, on a shot, the bullet list change, as the
        value-level player update says. */
    method DoPlayer(app: Input.App, bulletW: nat, bulletH: nat)
      requires Valid() && app.Valid()
      modifies player`dx, player`dy, player`reload, player`x, player`y, this`bullets, this`bulletTail, this`Nodes, bulletTail`next
      ensures Valid()
      ensures fighters == old(fighters) && old(Nodes) <= Nodes && fresh(Nodes - old(Nodes))
      ensures var shot := Fires(old(View(player)), old(Keys(app)));
        && |bullets| == |old(bullets)| + (if shot then 1 else 0)
        && bullets[..|old(bullets)|] == old(bullets)
        && (shot ==> fresh(bullets[|bullets| - 1]))
      ensures Snapshot() == PlayerFrame(old(Snapshot()), old(Keys(app)), bulletW, bulletH)
    {
      ghost var f0, p := Snapshot(), View(player);
      // the key table is not written during the update: its five keys are read once
      var keys := Keys(app);
      SteerPlayer(keys);
      ghost var steered := View(player);
      if keys.fire && player.reload == 0 {
        FireBullet(bulletW, bulletH);
        ReplaceFirstTwice(f0.fighters, steered, View(player));
      }
      ghost var reloaded := View(player);
      assert Snapshot() == f0.(fighters := f0.fighters[0 := reloaded],
                               bullets := f0.bullets + if Fires(p, keys) then [NewBullet(steered, bulletW, bulletH)] else []);
      MovePlayer();
      ReplaceFirstTwice(f0.fighters, reloaded, View(player));
    }

    /** The first half of the player update: velocities from the arrow keys (down
        beats up, right beats left) and one frame of reload cooldown. */
    method SteerPlayer(keys: Controls)
      requires Valid()
      modifies player`dx, player`dy, player`reload
      ensures Valid()
      ensures View(player) == Steer(old(View(player)), keys)
      ensures Snapshot() == old(Snapshot()).(fighters := old(Snapshot()).fighters[0 := View(player)])
    {
      // the new velocities and counter are worked out first and stored together
      var dx, dy, reload := 0, 0, player.reload;
      if reload > 0 {
        reload := reload - 1;
      }
      if keys.up {
        dy := -PLAYER_SPEED;
      }
      if keys.down {
        dy := PLAYER_SPEED;
      }
      if keys.left {
        dx := -PLAYER_SPEED;
      }
      if keys.right {
        dx := PLAYER_SPEED;
      }
      DistinctAt(fighters);
      assert player !in bullets;
      player.dx, player.dy, player.reload := dx, dy, reload;
      PlayerOnlyChanged();
    }

    /** The last part of the player update: one move, each coordinate clamped to
        the margins. */
    method MovePlayer()
      requires Valid()
      modifies player`x, player`y
      ensures Valid()
      ensures View(player) == ClampedMove(old(View(player)))
      ensures Snapshot() == old(Snapshot()).(fighters := old(Snapshot()).fighters[0 := View(player)])
    {
      var x := player.x + player.dx;
      if x <= 0 {
        x := 0;
      } else if x >= SCREEN_WIDTH - 40 {
        x := SCREEN_WIDTH - 40;
      }
      var y := player.y + player.dy;
      if y <= 0 {
        y := 0;
      } else if y >= SCREEN_HEIGHT - 40 {
        y := SCREEN_HEIGHT - 40;
      }
      DistinctAt(fighters);
      assert player !in bullets;
      player.x, player.y := x, y;
      PlayerOnlyChanged();
    }

    /** When only the player's data has changed, and not its link or side, the
        lists are as they were and only the first fighter's data is new. */
    twostate lemma PlayerOnlyChanged()
      requires old(Valid()) && unchanged(this, fighterHead, bulletHead)
      requires player.next == old(player.next) && player.side == old(player.side)
      requires forall k :: 0 < k < |fighters| ==> View(fighters[k]) == old(View(fighters[k])) && fighters[k].next == old(fighters[k].next)
      requires forall k :: 0 <= k < |bullets| ==> View(bullets[k]) == old(View(bullets[k])) && bullets[k].next == old(bullets[k].next)
      ensures Lists()
      ensures Snapshot() == old(Snapshot()).(fighters := old(Snapshot()).fighters[0 := View(player)])
    {
      ViewsAre(fighters, old(Views(fighters))[0 := View(player)]);
      ViewsAre(bullets, old(Views(bullets)));
    }

    /** The background scroll: one pixel left, back to 0 once past the left edge
        of its second copy. */
    method DoBackground()
      requires Valid()
      modifies this`backgroundX
      ensures Valid()
      ensures Snapshot() == old(Snapshot()).(background := ScrollBackground(old(backgroundX)))
    {
      backgroundX := backgroundX - 1;
      if backgroundX < -SCREEN_WIDTH {
        backgroundX := 0;
      }
    }

    /** Enemy spawning: the timer counts down, and when it reaches 0 (or less) a
        zeroed enemy is appended to the fighter list and placed at the right edge at
        a random height, flying left at a random speed 4 to 7, with health 1; the
        timer is then reset to a random 10 to 69. The random values are `r`, in the
        order they are drawn. */
    method SpawnEnemies(enemyW: nat, enemyH: nat, r: Rolls)
      requires Valid()
      modifies this`enemySpawnTimer, this`fighters, this`fighterTail, this`Nodes, fighterTail`next
      ensures Valid()
      ensures bullets == old(bullets) && old(Nodes) <= Nodes && fresh(Nodes - old(Nodes))
      ensures var spawned := Spawns(old(enemySpawnTimer));
        && |fighters| == |old(fighters)| + (if spawned then 1 else 0)
        && fighters[..|old(fighters)|] == old(fighters)
        && (spawned ==> fresh(fighters[|fighters| - 1]))
      ensures Snapshot() == SpawnFrame(old(Snapshot()), enemyW, enemyH, r)
    {
      ghost var f0 := Snapshot();
      var timer := enemySpawnTimer - 1;
      if timer <= 0 {
        SpawnEnemy(enemyW, enemyH, r.y, r.dx);
        assert fighters[..|fighters| - 1] == old(fighters);
        timer := 10 + r.delay % 60;
      }
      enemySpawnTimer := timer;
      SnapshotIs(SpawnFrame(f0, enemyW, enemyH, r));
    }

    /** A new enemy is appended to the fighter list. */
    method SpawnEnemy(enemyW: nat, enemyH: nat, randY: nat, randDx: nat)
      requires Valid()
      modifies this`fighters, this`fighterTail, this`Nodes, fighterTail`next
      ensures Valid()
      ensures bullets == old(bullets) && fighters == old(fighters) + [fighterTail] && fresh(fighterTail)
      ensures Nodes == old(Nodes) + {fighterTail}
      ensures Snapshot() == old(Snapshot()).(fighters := old(Snapshot()).fighters + [NewEnemy(enemyW, enemyH, randY, randDx)])
    {
      ghost var f0 := Snapshot();
      // the new enemy is filled in before it is linked; nothing else can see it
      var e := PlacedEnemy(enemyW, enemyH, randY, randDx);
      assert fighterTail !in bullets && forall k :: 0 <= k < |fighters| - 1 ==> fighters[k] != fighterTail;
      AppendFighter(e);
      assert Views(bullets) == f0.bullets;
      ViewsAre(fighters, f0.fighters + [View(e)]);
      SnapshotIs(f0.(fighters := f0.fighters + [View(e)]));
    }

    /** A zeroed enemy placed at the right edge at a random height, flying left. */
    method PlacedEnemy(enemyW: nat, enemyH: nat, randY: nat, randDx: nat) returns (e: Entity)
      ensures fresh(e) && e.next == null
      ensures View(e) == NewEnemy(enemyW, enemyH, randY, randDx)
    {
      e := new Entity.Zeroed();
      e.x := SCREEN_WIDTH;
      e.y := randY % SCREEN_HEIGHT;
      e.w, e.h := enemyW, enemyH;
      e.dx := -(4 + randDx % 4);
      e.side := Alien;
      e.health := 1;
    }

    /** One frame of game logic: the background scroll, the player update, the
        fighter pass, the bullet pass and enemy spawning, in that order. The
        stage's values afterwards are those of one frame of the value-level rules,
        for the keys held when the frame starts, the texture sizes `sz` and the
        random values `r`. */
    method Logic(app: Input.App, sz: Sizes, r: Rolls)
      requires Valid() && app.Valid()
      modifies this, Nodes
      ensures Valid() && old(Nodes) <= Nodes && fresh(Nodes - old(Nodes))
      ensures Snapshot() == Tick(old(Snapshot()), old(Keys(app)), sz, r)
    {
      ghost var f0, keys, B := Snapshot(), Keys(app), bullets;
      ScrollAndSteer(app, sz.bulletW, sz.bulletH);
      forall k | 0 <= k < |bullets|
        ensures bullets[k] in B || fresh(bullets[k])
      {
        if k < |B| {
          assert bullets[..|B|][k] == bullets[k];
        }
      }
      ghost var f1 := Snapshot();
      assert f1 == PlayerFrame(f0.(background := ScrollBackground(f0.background)), keys, sz.bulletW, sz.bulletH);
      assert fighters == old(fighters);
      Passes(sz.enemyW, sz.enemyH, r);
    }

    /** The first two steps of a frame: the background scroll and the player
        update. At most one bullet is added, and it is new. */
    method ScrollAndSteer(app: Input.App, bulletW: nat, bulletH: nat)
      requires Valid() && app.Valid()
      modifies this`backgroundX, player`dx, player`dy, player`reload, player`x, player`y, this`bullets, this`bulletTail, this`Nodes, bulletTail`next
      ensures Valid()
      ensures fighters == old(fighters) && old(Nodes) <= Nodes && fresh(Nodes - old(Nodes))
      ensures |old(bullets)| <= |bullets| <= |old(bullets)| + 1 && bullets[..|old(bullets)|] == old(bullets)
      ensures |bullets| > |old(bullets)| ==> fresh(bullets[|bullets| - 1])
      ensures Snapshot() == PlayerFrame(old(Snapshot()).(background := ScrollBackground(old(backgroundX))), old(Keys(app)), bulletW, bulletH)
    {
      DoBackground();
      DoPlayer(app, bulletW, bulletH);
    }

    /** The last three steps of a frame: the fighter pass, the bullet pass and
        enemy spawning. */
    method Passes(enemyW: nat, enemyH: nat, r: Rolls)
      requires Valid()
      modifies this, Nodes
      ensures Valid() && old(Nodes) <= Nodes && fresh(Nodes - old(Nodes))
      ensures Snapshot() == SpawnFrame(BulletFrame(FighterFrame(old(Snapshot()))), enemyW, enemyH, r)
    {
      ghost var F, V := fighters, Views(fighters);
      DoFighters();
      SelectDistinct(F, FighterKeeps(MoveAll(V)));
      assert forall k :: 0 <= k < |fighters| ==> fighters[k] in F;
      assert bullets == old(bullets);
      ShootAndSpawn(enemyW, enemyH, r);
    }

    /** The bullet pass and enemy spawning. */
    method ShootAndSpawn(enemyW: nat, enemyH: nat, r: Rolls)
      requires Valid()
      modifies this, Nodes
      ensures Valid() && old(Nodes) <= Nodes && fresh(Nodes - old(Nodes))
      ensures Snapshot() == SpawnFrame(BulletFrame(old(Snapshot())), enemyW, enemyH, r)
    {
      DoBullets();
      assert fighterTail in old(fighters);
      SpawnEnemies(enemyW, enemyH, r);
    }

    /** Whether `e` overlaps the player. */
    function HitPlayer(e: Entity): bool
      reads player`x, player`y, player`w, player`h, e`x, e`y, e`w, e`h
    {
      Collides(BoxOf(player), BoxOf(e))
    }

    /** One step of the fighter pass on the node `e` that follows `prev`: the
        fighter moves, scores a point if it is not the player and touches the
        player, and is unlinked if it is not the player and is doomed; the tail
        moves back to `prev` when `e` was the last node. */
    method FighterStep(prev: Entity, e: Entity) returns (removed: bool)
      requires prev != e && prev.next == e
      modifies e`x, e`y, this`score, this`fighterTail, prev`next
      ensures View(e) == Moved(old(View(e)))
      ensures removed == (e != player && Doomed(View(player), View(e)))
      ensures score == old(score) + if e != player && Collides(Area(View(player)), Area(View(e))) then 1 else 0
      ensures prev.next == if removed then old(e.next) else e
      ensures fighterTail == if removed && old(fighterTail) == e then prev else old(fighterTail)
    {
      e.x := e.x + e.dx;
      e.y := e.y + e.dy;

      if e != player && HitPlayer(e) {
        score := score + 1;
      }

      removed := false;
      if e != player && (e.x < -(e.w as int) || e.health == 0 || HitPlayer(e)) {
        if e == fighterTail {
          fighterTail := prev;
        }
        prev.next := e.next;
        removed := true;
      }
    }

    /** The state of the fighter pass over the nodes `F`, whose values were `V`,
        once it has decided the first `i` of them: the visited fighters have moved,
        the rest are as they were; `links` holds every link, with the head leading
        through the survivors so far to the cursor `e`; `prev` is the last survivor
        (or the head) and the score counts the rams so far. */
    ghost predicate FighterPass(F: seq<Entity>, V: seq<Ent>, score0: int, i: nat, links: map<Entity, Entity?>, prev: Entity, e: Entity?)
      reads this`fighterTail, this`score, fighterHead`next, F, links.Keys
    {
      var M := MoveAll(V);
      && |V| == |F| && i <= |F| && F != [] && F[0] == player
      && fighterHead !in F && Distinct(F)
      && e == NodeAt(F, i)
      && Relinked(fighterHead, F, FighterKeeps(M), i, links)
      && LinksHold(fighterHead, F, links)
      && prev == Trailing(fighterHead, Select(F[..i], FighterKeeps(M)[..i]))
      && fighterTail == (if i < |F| then F[|F| - 1] else prev)
      && (forall k :: 0 <= k < |F| ==> View(F[k]) == if k < i then M[k] else V[k])
      && score == score0 + CountTrue(FighterRams(M)[..i])
    }

    /** A step of the fighter pass carries the pass from one node to the next. */
    method VisitFighter(ghost F: seq<Entity>, ghost V: seq<Ent>, ghost score0: int, ghost i: nat,
                        ghost links: map<Entity, Entity?>, prev: Entity, e: Entity)
      returns (ghost links': map<Entity, Entity?>, last: Entity)
      requires FighterPass(F, V, score0, i, links, prev, e)
      modifies e`x, e`y, this`score, this`fighterTail, prev`next
      ensures FighterPass(F, V, score0, i + 1, links', last, last.next)
      ensures i + 1 <= |F| && last.next == NodeAt(F, i + 1) && (last == fighterHead || last in F)
    {
      ghost var M := MoveAll(V);
      ghost var K := FighterKeeps(M);
      ghost var R := FighterRams(M);
      DistinctAt(F);
      assert e == player <==> i == 0;
      assert prev in links;
      var removed := StepFighterAt(F, i, prev, e);
      assert View(e) == M[i] && (i > 0 ==> View(player) == M[0]);
      assert removed == !K[i];
      SelectPrefixSnoc(F, R, i);
      links' := Advance(fighterHead, F, K, i, links);
      assert forall k :: 0 <= k < |F| && F[k] == prev ==> F[k].next == links'[F[k]];
      last := if removed then prev else e;
      assert last == Trailing(fighterHead, Select(F[..i + 1], K[..i + 1]));
      assert fighterTail == (if i + 1 < |F| then F[|F| - 1] else last);
    }

    /** The step of the fighter pass at node `i` of `F`: only that node moves,
        and only the link of its predecessor changes. */
    method StepFighterAt(ghost F: seq<Entity>, ghost i: nat, prev: Entity, e: Entity) returns (removed: bool)
      requires i < |F| && F[i] == e && prev != e && prev.next == e
      requires forall k, l :: 0 <= k < l < |F| ==> F[k] != F[l]
      modifies e`x, e`y, this`score, this`fighterTail, prev`next
      ensures View(e) == Moved(old(View(e)))
      ensures removed == (e != player && Doomed(View(player), View(e)))
      ensures score == old(score) + if e != player && Collides(Area(View(player)), Area(View(e))) then 1 else 0
      ensures prev.next == if removed then old(e.next) else e
      ensures fighterTail == if removed && old(fighterTail) == e then prev else old(fighterTail)
      ensures forall k :: 0 <= k < |F| && k != i ==> View(F[k]) == old(View(F[k]))
      ensures forall k :: 0 <= k < |F| && F[k] != prev ==> F[k].next == old(F[k].next)
    {
      removed := FighterStep(prev, e);
      forall k | 0 <= k < |F| && k != i
        ensures View(F[k]) == old(View(F[k]))
      {
        assert F[k] != e;
      }
    }

    /** The fighter pass. Each fighter, the player included, moves by its velocity;
        a fighter other than the player touching the player scores a point; then a
        fighter other than the player that is off the left edge, dead, or touching
        the player is unlinked, and the walk resumes from its predecessor. The
        survivors and the points are those the value-level rule gives for the moved
        values; the bullet list and the other counters are untouched. */
    method DoFighters()
      requires Valid()
      modifies this`score, this`fighterTail, this`fighters, fighterHead`next, fighters`x, fighters`y, fighters`next
      ensures Valid()
      ensures fighters == Select(old(fighters), FighterKeeps(MoveAll(old(Views(fighters)))))
      ensures Snapshot() == FighterFrame(old(Snapshot()))
    {
      ghost var f0 := Snapshot();
      assert forall k :: 0 <= k < |bullets| ==> bullets[k] !in fighters;
      KeepFighters();
      ViewsAre(bullets, f0.bullets);
      SnapshotIs(FighterFrame(f0));
    }

    /** The fighter pass with the stage invariant kept. */
    method KeepFighters()
      requires Valid()
      modifies this`score, this`fighterTail, this`fighters, fighterHead`next, fighters`x, fighters`y, fighters`next
      ensures Valid()
      ensures var moved := MoveAll(old(Views(fighters)));
        && fighters == Select(old(fighters), FighterKeeps(moved))
        && Views(fighters) == Select(moved, FighterKeeps(moved))
        && score == old(score) + CountTrue(FighterRams(moved))
    {
      ghost var F := fighters;
      assert forall k :: 0 <= k < |bullets| ==> bullets[k] !in F;
      PruneFighters();
      SelectDistinct(F, FighterKeeps(MoveAll(old(Views(F)))));
      assert Linked(bulletHead, bullets, bulletTail);
      assert forall k :: 0 <= k < |bullets| ==> bullets[k].side == Player;
      FightersNarrowed();
    }

    /** The fighter list replaced by a well-linked part of itself, headed by the
        player, with the bullets and the counters untouched: the stage invariant
        still holds. */
    twostate lemma FightersNarrowed()
      requires old(Valid())
      requires Linked(fighterHead, fighters, fighterTail) && fighters != [] && fighters[0] == player
      requires forall e :: e in fighters ==> e in old(fighters)
      requires bullets == old(bullets) && Linked(bulletHead, bullets, bulletTail)
      requires forall b :: b in bullets ==> b.side == Player
      requires player.side == old(player.side) && player.reload == old(player.reload)
      requires backgroundX == old(backgroundX) && enemySpawnTimer == old(enemySpawnTimer) && Nodes == old(Nodes)
      ensures Valid()
    {
    }

    /** The fighter pass on the fighter list alone. */
    method PruneFighters()
      requires Linked(fighterHead, fighters, fighterTail) && fighters != [] && fighters[0] == player
      modifies this`score, this`fighterTail, this`fighters, fighterHead`next, fighters`x, fighters`y, fighters`next
      ensures Linked(fighterHead, fighters, fighterTail) && fighters != [] && fighters[0] == player
      ensures var moved := MoveAll(old(Views(fighters)));
        && fighters == Select(old(fighters), FighterKeeps(moved))
        && Views(fighters) == Select(moved, FighterKeeps(moved))
        && score == old(score) + CountTrue(FighterRams(moved))
    {
      ghost var F := fighters;
      ghost var links, prev := WalkFighters();
      fighters := Select(F, FighterKeeps(MoveAll(old(Views(F)))));
      FighterPassDone(F, old(Views(F)), old(score), links, prev);
    }

    /** The walk of the fighter pass: visits every node once, in link order. */
    method WalkFighters() returns (ghost links: map<Entity, Entity?>, prev: Entity)
      requires Linked(fighterHead, fighters, fighterTail) && fighters != [] && fighters[0] == player
      modifies this`score, this`fighterTail, fighterHead`next, fighters`x, fighters`y, fighters`next
      ensures FighterPass(fighters, old(Views(fighters)), old(score), |fighters|, links, prev, null)
    {
      ghost var V := Views(fighters);
      links := FighterPassStart();
      ghost var i: nat := 0;
      prev := fighterHead;
      var e := fighterHead.next;
      while e != null
        invariant FighterPass(fighters, V, old(score), i, links, prev, e)
        invariant i <= |fighters| && e == NodeAt(fighters, i) && (prev == fighterHead || prev in fighters)
        decreases |fighters| - i
      {
        links, prev := VisitFighter(fighters, V, old(score), i, links, prev, e);
        i := i + 1;
        e := prev.next;
      }
    }

    /** Before the fighter pass has visited any node, nothing has moved, no link has
        changed and nothing is scored. */
    lemma FighterPassStart() returns (links: map<Entity, Entity?>)
      requires Linked(fighterHead, fighters, fighterTail) && fighters != [] && fighters[0] == player
      ensures FighterPass(fighters, Views(fighters), score, 0, links, fighterHead, fighterHead.next)
    {
      links := Successors(fighterHead, fighters, fighterTail, FighterKeeps(MoveAll(Views(fighters))));
      assert fighters[..0] == [];
    }

    /** A finished fighter pass leaves the survivors linked in order, the player
        first, with the tail at the last of them and one point per ram. */
    lemma FighterPassDone(F: seq<Entity>, V: seq<Ent>, score0: int, links: map<Entity, Entity?>, prev: Entity)
      requires FighterPass(F, V, score0, |F|, links, prev, null)
      ensures var M := MoveAll(V);
        var S := Select(F, FighterKeeps(M));
        && Linked(fighterHead, S, fighterTail) && S != [] && S[0] == player
        && Views(S) == Select(M, FighterKeeps(M))
        && score == score0 + CountTrue(FighterRams(M))
    {
      var M := MoveAll(V);
      var K := FighterKeeps(M);
      assert F[..|F|] == F && K[..|F|] == K && FighterRams(M)[..|F|] == FighterRams(M);
      assert Linked(fighterHead, Select(F, K), fighterTail) by {
        PassLeavesList(fighterHead, F, K, links);
      }
      assert Select(F, K) != [] && Select(F, K)[0] == player by {
        SelectKeepsFirst(F, K);
      }
      assert Views(Select(F, K)) == Select(M, K) by {
        ViewsOfSelection(F, K, M);
      }
    }

    /** Whether bullet `b` hits a fighter: the fighter list is searched in order for
        the first fighter on the other side whose box overlaps the bullet's; that
        fighter and the bullet drop to health 0 and a point is scored. The fighter's
        health is not looked at. */
    method BulletHitFighter(b: Entity) returns (hit: bool)
      requires Linked(fighterHead, fighters, fighterTail) && b !in fighters
      modifies b`health, fighters`health, this`score
      ensures var j := FirstTarget(old(View(b)), old(Views(fighters)));
        && hit == (j < |fighters|)
        && Views(fighters) == Strike(old(Views(fighters)), old(View(b)))
        && View(b) == (if hit then old(View(b)).(health := 0) else old(View(b)))
        && score == old(score) + (if hit then 1 else 0)
    {
      // the search, then the effect of the hit it found
      ghost var j: nat := 0;
      var e := fighterHead.next;
      while e != null && !(e.side != b.side && Collides(BoxOf(b), BoxOf(e)))
        invariant j <= |fighters| && e == NodeAt(fighters, j)
        invariant forall k :: 0 <= k < j ==> !Targets(View(b), View(fighters[k]))
        decreases |fighters| - j
      {
        e := e.next;
        j := j + 1;
      }
      FirstTargetIsFirst(View(b), Views(fighters));
      if e != null {
        b.health := 0;
        e.health := 0;
        score := score + 1;
        hit := true;
        forall k | 0 <= k < |fighters| && k != j
          ensures View(fighters[k]) == old(View(fighters[k]))
        {
          DistinctAt(fighters);
        }
      } else {
        hit := false;
      }
    }

    /** One step of the bullet pass on the node `b` that follows `prev`: the bullet
        moves, then is unlinked if it hits a fighter or is past the right edge; the
        tail moves back to `prev` when `b` was the last node. */
    method BulletStep(prev: Entity, b: Entity) returns (removed: bool)
      requires Linked(fighterHead, fighters, fighterTail)
      requires prev != b && prev.next == b && b !in fighters && prev !in fighters
      modifies b`x, b`y, b`health, fighters`health, this`score, this`bulletTail, prev`next
      ensures var mb := Moved(old(View(b)));
        var hit := FirstTarget(mb, old(Views(fighters))) < |fighters|;
        && removed == (hit || mb.x > SCREEN_WIDTH)
        && View(b) == (if hit then mb.(health := 0) else mb)
        && Views(fighters) == Strike(old(Views(fighters)), mb)
        && score == old(score) + (if hit then 1 else 0)
        && prev.next == (if removed then old(b.next) else b)
        && bulletTail == (if removed && old(bulletTail) == b then prev else old(bulletTail))
    {
      ghost var fs := Views(fighters);
      ghost var mb := Moved(View(b));
      b.x := b.x + b.dx;
      b.y := b.y + b.dy;
      assert View(b) == mb && Views(fighters) == fs;

      var hit := BulletHitFighter(b);
      ghost var after := View(b);
      ghost var struck := Views(fighters);
      removed := false;
      if hit || b.x > SCREEN_WIDTH {
        if b == bulletTail {
          bulletTail := prev;
        }
        prev.next := b.next;
        removed := true;
      }
      assert View(b) == after && Views(fighters) == struck;
    }

    /** The state of the bullet pass over the nodes `B` once it has decided the
        first `i` of them, for the moved values `MB` and the mask `K` of bullets that
        stay: `links`, `prev` and the tail are as in the fighter pass; the kept
        visited bullets hold their moved values, the rest of the unvisited ones
        their values `BV` from before the pass; the fighters, still well linked,
        hold the values `D` and the score is `sc`. */
    ghost predicate BulletWalk(B: seq<Entity>, MB: seq<Ent>, K: seq<bool>, i: nat, links: map<Entity, Entity?>,
                               prev: Entity, b: Entity?, BV: seq<Ent>, D: seq<Ent>, sc: int)
      reads this`bulletTail, this`score, this`fighters, this`fighterTail, fighterHead`next, bulletHead`next, B, fighters
    {
      && |BV| == |B| && |MB| == |B| && |K| == |B| && i <= |B|
      && bulletHead !in B && Distinct(B)
      && b == NodeAt(B, i)
      && Relinked(bulletHead, B, K, i, links)
      && LinksHold(bulletHead, B, links)
      && prev == Trailing(bulletHead, Select(B[..i], K[..i]))
      && bulletTail == (if i < |B| then B[|B| - 1] else prev)
      && (forall k :: 0 <= k < |B| ==> if k < i then K[k] ==> View(B[k]) == MB[k] else View(B[k]) == BV[k])
      && Linked(fighterHead, fighters, fighterTail)
      && fighterHead != bulletHead && fighterHead !in B && bulletHead !in fighters
      && (forall e :: e in fighters ==> e !in B)
      && Views(fighters) == D
      && score == sc
    }

    /** The bullet pass over the nodes `B`, whose values were `BV`, while the
        fighters held `FV`, once it has decided the first `i` bullets: the walk
        state, with the damage and the points taking in exactly those bullets. */
    ghost predicate BulletPass(B: seq<Entity>, BV: seq<Ent>, FV: seq<Ent>, score0: int, i: nat,
                               links: map<Entity, Entity?>, prev: Entity, b: Entity?, D: seq<Ent>, sc: int)
      reads this`bulletTail, this`score, this`fighters, this`fighterTail, fighterHead`next, bulletHead`next, B, fighters
    {
      var MB := MoveAll(BV);
      && BulletWalk(B, MB, BulletKeeps(FV, MB), i, links, prev, b, BV, D, sc)
      && D == Damage(FV, MB[..i]) && sc == score0 + CountTrue(BulletHits(FV, MB)[..i])
    }

    /** A step of the bullet pass carries the walk from one node to the next: the
        bullet at `i` moves to its value in `MB`, stays exactly when `K` says so,
        and strikes the fighters. */
    method AdvanceBullet(ghost B: seq<Entity>, ghost MB: seq<Ent>, ghost K: seq<bool>, ghost BV: seq<Ent>, ghost D: seq<Ent>,
                       ghost sc: int, ghost i: nat, ghost links: map<Entity, Entity?>, prev: Entity, b: Entity)
      returns (ghost links': map<Entity, Entity?>, last: Entity)
      requires BulletWalk(B, MB, K, i, links, prev, b, BV, D, sc)
      requires MB[i] == Moved(BV[i])
      requires K[i] == !(FirstTarget(MB[i], D) < |D| || MB[i].x > SCREEN_WIDTH)
      modifies b`x, b`y, b`health, fighters`health, this`score, this`bulletTail, prev`next
      ensures BulletWalk(B, MB, K, i + 1, links', last, last.next, BV, Strike(D, MB[i]),
                         sc + if FirstTarget(MB[i], D) < |D| then 1 else 0)
    {
      ghost var hit := FirstTarget(MB[i], D) < |D|;
      DistinctAt(B);
      assert prev in links;
      assert b == B[i] && b !in fighters;
      label Before:
      var removed := BulletStep(prev, b);
      assert View(b) == (if hit then MB[i].(health := 0) else MB[i]);
      assert removed == !K[i];
      // only the cursor has changed among the bullets
      forall k | 0 <= k < |B|
        ensures if k < i + 1 then K[k] ==> View(B[k]) == MB[k] else View(B[k]) == BV[k]
      {
        if k != i {
          assert B[k] != b && B[k] in B && B[k] !in fighters;
          assert View(B[k]) == old@Before(View(B[k]));
        }
      }
      links' := Advance(bulletHead, B, K, i, links);
      forall k | 0 <= k < |B|
        ensures B[k].next == links'[B[k]]
      {
        if B[k] != prev {
          assert B[k].next == old@Before(B[k].next);
        }
      }
      assert bulletHead.next == links'[bulletHead];
      last := if removed then prev else b;
    }

    /** A step of the bullet pass, with the damage and the points so far: both
        take in the bullet at `i`. */
    method VisitBullet(ghost B: seq<Entity>, ghost BV: seq<Ent>, ghost FV: seq<Ent>, ghost score0: int, ghost i: nat,
                       ghost links: map<Entity, Entity?>, ghost D: seq<Ent>, ghost sc: int, prev: Entity, b: Entity)
      returns (ghost links': map<Entity, Entity?>, last: Entity, ghost D': seq<Ent>, ghost sc': int)
      requires BulletPass(B, BV, FV, score0, i, links, prev, b, D, sc)
      modifies b`x, b`y, b`health, fighters`health, this`score, this`bulletTail, prev`next
      ensures BulletPass(B, BV, FV, score0, i + 1, links', last, last.next, D', sc')
      ensures i + 1 <= |B| && last.next == NodeAt(B, i + 1) && (last == bulletHead || last in B)
    {
      ghost var MB := MoveAll(BV);
      ghost var H := BulletHits(FV, MB);
      DamageStep(FV, MB, i);
      SelectPrefixSnoc(MB, H, i);
      ghost var hit := FirstTarget(MB[i], D) < |D|;
      links', last := AdvanceBullet(B, MB, BulletKeeps(FV, MB), BV, D, sc, i, links, prev, b);
      D' := Strike(D, MB[i]);
      sc' := sc + if hit then 1 else 0;
    }

    /** The walk of the bullet pass over the nodes `B`, whose values are `BV`,
        while the fighters hold `FV`: visits every bullet once, in link order, and
        leaves the bullets the rule keeps linked, in order. */
    method WalkBullets(ghost B: seq<Entity>, ghost BV: seq<Ent>, ghost FV: seq<Ent>)
      requires Linked(bulletHead, B, bulletTail) && Linked(fighterHead, fighters, fighterTail)
      requires fighterHead != bulletHead && fighterHead !in B && bulletHead !in fighters
      requires forall e :: e in fighters ==> e !in B
      requires Views(B) == BV && Views(fighters) == FV
      modifies this`score, this`bulletTail, bulletHead`next, B`x, B`y, B`health, B`next, fighters`health
      ensures var MB := MoveAll(BV);
        var K := BulletKeeps(FV, MB);
        && Linked(bulletHead, Select(B, K), bulletTail) && Linked(fighterHead, fighters, fighterTail)
        && Views(Select(B, K)) == Select(MB, K)
        && Views(fighters) == Damage(FV, MB)
        && score == old(score) + CountTrue(BulletHits(FV, MB))
    {
      ghost var links := BulletWalkStart(B, BV, FV);
      ghost var D := FV;
      ghost var sc := score;
      ghost var i: nat := 0;
      var prev := bulletHead;
      var b := bulletHead.next;
      while b != null
        invariant BulletPass(B, BV, FV, old(score), i, links, prev, b, D, sc)
        invariant i <= |B| && b == NodeAt(B, i) && (prev == bulletHead || prev in B)
        decreases |B| - i
      {
        links, prev, D, sc := VisitBullet(B, BV, FV, old(score), i, links, D, sc, prev, b);
        i := i + 1;
        b := prev.next;
      }
      BulletWalkDone(B, BV, FV, old(score), i, links, prev, D, sc);
    }

    /** The bullet pass on the two lists alone. */
    method PruneBullets()
      requires Lists()
      modifies this`score, this`bulletTail, this`bullets, bulletHead`next, bullets`x, bullets`y, bullets`health, bullets`next, fighters`health
      ensures Linked(bulletHead, bullets, bulletTail) && Linked(fighterHead, fighters, fighterTail)
      ensures var mbs := MoveAll(old(Views(bullets)));
        var fs := old(Views(fighters));
        && bullets == Select(old(bullets), BulletKeeps(fs, mbs))
        && Views(bullets) == Select(mbs, BulletKeeps(fs, mbs))
        && Views(fighters) == Damage(fs, mbs)
        && score == old(score) + CountTrue(BulletHits(fs, mbs))
    {
      ghost var B := bullets;
      ghost var BV := Views(B);
      ghost var FV := Views(fighters);
      bullets := Select(B, BulletKeeps(FV, MoveAll(BV)));
      WalkBullets(B, BV, FV);
    }

    /** The bullet pass. Each bullet moves by its velocity, then is unlinked if it
        hits a fighter or is past the right edge. A hit zeroes the health of the
        bullet and of the first fighter in list order that it overlaps on the other
        side, and scores a point. The surviving bullets, the damage and the points
        are those the value-level rule gives; the fighter list keeps its nodes. */
    method DoBullets()
      requires Valid()
      modifies this`score, this`bulletTail, this`bullets, bulletHead`next, bullets`x, bullets`y, bullets`health, bullets`next, fighters`health
      ensures Valid()
      ensures bullets == Select(old(bullets), BulletKeeps(old(Views(fighters)), MoveAll(old(Views(bullets)))))
      ensures Snapshot() == BulletFrame(old(Snapshot()))
    {
      ghost var f0 := Snapshot();
      KeepBullets();
      SnapshotIs(BulletFrame(f0));
    }

    /** The bullet pass with the stage invariant kept. */
    method KeepBullets()
      requires Valid()
      modifies this`score, this`bulletTail, this`bullets, bulletHead`next, bullets`x, bullets`y, bullets`health, bullets`next, fighters`health
      ensures Valid()
      ensures var mbs := MoveAll(old(Views(bullets)));
        var fs := old(Views(fighters));
        && bullets == Select(old(bullets), BulletKeeps(fs, mbs))
        && Views(bullets) == Select(mbs, BulletKeeps(fs, mbs))
        && Views(fighters) == Damage(fs, mbs)
        && score == old(score) + CountTrue(BulletHits(fs, mbs))
    {
      ghost var B := bullets;
      PruneBullets();
      SelectDistinct(B, BulletKeeps(old(Views(fighters)), MoveAll(old(Views(B)))));
    }

    /** Before the bullet pass has visited any node, nothing has moved, no link has
        changed, no fighter is damaged and nothing is scored. */
    lemma BulletWalkStart(B: seq<Entity>, BV: seq<Ent>, FV: seq<Ent>) returns (links: map<Entity, Entity?>)
      requires Linked(bulletHead, B, bulletTail) && Linked(fighterHead, fighters, fighterTail)
      requires fighterHead != bulletHead && fighterHead !in B && bulletHead !in fighters
      requires forall e :: e in fighters ==> e !in B
      requires Views(B) == BV && Views(fighters) == FV
      ensures BulletPass(B, BV, FV, score, 0, links, bulletHead, bulletHead.next, FV, score)
    {
      links := Successors(bulletHead, B, bulletTail, BulletKeeps(FV, MoveAll(BV)));
      assert B[..0] == [];
      assert MoveAll(BV)[..0] == [] && BulletHits(FV, MoveAll(BV))[..0] == [];
    }

    /** A finished bullet pass leaves the kept bullets linked in order, with the
        tail at the last of them, and the damage and points of all the bullets. */
    lemma BulletWalkDone(B: seq<Entity>, BV: seq<Ent>, FV: seq<Ent>, score0: int, i: nat, links: map<Entity, Entity?>,
                         prev: Entity, D: seq<Ent>, sc: int)
      requires BulletPass(B, BV, FV, score0, i, links, prev, null, D, sc)
      ensures var MB := MoveAll(BV);
        var K := BulletKeeps(FV, MB);
        && Linked(bulletHead, Select(B, K), bulletTail) && Linked(fighterHead, fighters, fighterTail)
        && Views(Select(B, K)) == Select(MB, K)
        && Views(fighters) == Damage(FV, MB)
        && score == score0 + CountTrue(BulletHits(FV, MB))
    {
      var MB := MoveAll(BV);
      var K := BulletKeeps(FV, MB);
      assert i == |B|;
      assert B[..i] == B && K[..i] == K;
      assert MB[..i] == MB && BulletHits(FV, MB)[..i] == BulletHits(FV, MB);
      PassLeavesList(bulletHead, B, K, links);
      ViewsOfSelection(B, K, MB);
    }
  }

  /** A run one frame longer ends one more frame of logic later, with the keys
      held after that frame's poll. */
  lemma RunSnoc(f: Frame, table: seq<int>, input: seq<seq<Input.Event>>, sz: Sizes, rolls: seq<Rolls>, i: nat)
    requires f.fighters != [] && |table| == MAX_KEYBOARD_KEYS && i < |input| == |rolls|
    ensures Ticks(f, FrameKeys(table, input[..i + 1]), sz, rolls[..i + 1])
         == Tick(Ticks(f, FrameKeys(table, input[..i]), sz, rolls[..i]), KeysIn(Input.TableAfter(table, input[..i + 1])), sz, rolls[i])
  {
    FrameKeysSnoc(table, input, i);
    assert rolls[..i + 1] == rolls[..i] + [rolls[i]];
    TicksSnoc(f, FrameKeys(table, input[..i]), sz, rolls[..i], KeysIn(Input.TableAfter(table, input[..i + 1])), rolls[i]);
  }

  /** One pass of the main loop: poll the frame's events `evs`, then, unless
      they request quitting, run one frame of game logic with the keys the poll
      leaves held. */
  method Frame(stage: Stage, app: Input.App, sz: Sizes, evs: seq<Input.Event>, r: Rolls) returns (quit: bool)
    requires stage.Valid() && app.Valid()
    modifies stage, stage.Nodes, app.keyboard
    ensures stage.Valid() && app.Valid() && old(stage.Nodes) <= stage.Nodes && fresh(stage.Nodes - old(stage.Nodes))
    ensures quit <==> Input.Quit in evs
    ensures app.keyboard[..] == Input.Events(old(app.keyboard[..]), evs)
    ensures stage.Snapshot() == if quit then old(stage.Snapshot()) else Tick(old(stage.Snapshot()), KeysIn(app.keyboard[..]), sz, r)
  {
    quit := app.DoInput(evs);
    if !quit {
      stage.Logic(app, sz, r);
    }
  }

  /** The main loop over the frames of `input` and `rolls`: before frame i it
      polls `input[i]`, and it stops at the first poll that requests quitting.
      `ran` frames of logic run, each with the keys held after its poll, each
      through the nodes the stage owns then; the stage ends at the value those
      frames give and the key table at the value the polls read give. */
  method RunFrames(stage: Stage, app: Input.App, sz: Sizes, input: seq<seq<Input.Event>>, rolls: seq<Rolls>) returns (ran: nat)
    requires stage.Valid() && app.Valid() && |input| == |rolls|
    modifies stage, stage.Nodes, app.keyboard
    ensures stage.Valid() && app.Valid() && old(stage.Nodes) <= stage.Nodes && fresh(stage.Nodes - old(stage.Nodes))
    ensures ran == Input.QuitFrame(input)
    ensures stage.Snapshot() == Ticks(old(stage.Snapshot()), FrameKeys(old(app.keyboard[..]), input[..ran]), sz, rolls[..ran])
    ensures app.keyboard[..] == Input.TableAfter(old(app.keyboard[..]), input[..if ran < |input| then ran + 1 else ran])
  {
    ghost var f0, t0 := stage.Snapshot(), app.keyboard[..];
    ran := 0;
    while ran < |input|
      invariant ran <= Input.QuitFrame(input)
      invariant stage.Valid() && app.Valid() && old(stage.Nodes) <= stage.Nodes && fresh(stage.Nodes - old(stage.Nodes))
      invariant app.keyboard[..] == Input.TableAfter(t0, input[..ran])
      invariant stage.Snapshot() == Ticks(f0, FrameKeys(t0, input[..ran]), sz, rolls[..ran])
    {
      ghost var N, kb := stage.Nodes, app.keyboard[..];
      FrameKeysSnoc(t0, input, ran);
      var quit := Frame(stage, app, sz, input[ran], rolls[ran]);
      assert app.keyboard[..] == Input.Events(kb, input[ran]);
      Input.QuitFrameStep(input, ran);
      if quit {
        return;
      }
      RunSnoc(f0, t0, input, sz, rolls, ran);
      assert N <= stage.Nodes && fresh(stage.Nodes - N);
      ran := ran + 1;
    }
  }
}
