/** Constants of the game and the pure arithmetic of its per-frame rules. */
module Rules {

  const SCREEN_WIDTH: int := 1280
  const SCREEN_HEIGHT: int := 720
  const PLAYER_SPEED: int := 4
  const PLAYER_BULLET_SPEED: int := 20
  /** Frames between two shots of the player (a literal in doPlayer/fireBullet). */
  const PLAYER_RELOAD: int := 8
  /** The clamping margin of the player: a literal 40, not the sprite size. */
  const PLAYER_MARGIN: int := 40
  const MAX_KEYBOARD_KEYS: int := 350
  const GLYPH_WIDTH: int := 18

  /** SDL's scancode values for the keys the player uses. */
  const SCANCODE_SPACE: nat := 44
  const SCANCODE_RIGHT: nat := 79
  const SCANCODE_LEFT: nat := 80
  const SCANCODE_DOWN: nat := 81
  const SCANCODE_UP: nat := 82

  /** Largest x and y the player may have after its own update. */
  const PLAYER_MAX_X: int := SCREEN_WIDTH - PLAYER_MARGIN
  const PLAYER_MAX_Y: int := SCREEN_HEIGHT - PLAYER_MARGIN

  /** The reload cooldown after one frame: decremented only while positive. */
  function CoolDown(reload: int): (r: int)
    ensures reload > 0 ==> r == reload - 1 && r >= 0
    ensures reload <= 0 ==> r == reload
  {
    if reload > 0 then reload - 1 else reload
  }

  /** Velocity on one axis from the two opposing keys; the positive key is tested
      last and so wins when both are held. */
  function AxisVelocity(negativeHeld: bool, positiveHeld: bool): (d: int)
    ensures positiveHeld ==> d == PLAYER_SPEED
    ensures negativeHeld && !positiveHeld ==> d == -PLAYER_SPEED
    ensures !negativeHeld && !positiveHeld ==> d == 0
  {
    if positiveHeld then PLAYER_SPEED else if negativeHeld then -PLAYER_SPEED else 0
  }

  /** The player's clamp on one axis: at or below 0 snaps to 0, at or above
      `limit` snaps to `limit`. */
  function Clamp(v: int, limit: int): (r: int)
    requires limit >= 0
    ensures 0 <= r <= limit
    ensures 0 < v < limit ==> r == v
    ensures v <= 0 ==> r == 0
    ensures v >= limit ==> r == limit
  {
    if v <= 0 then 0 else if v >= limit then limit else v
  }

  /** One frame of background scrolling: one pixel left, back to 0 once the
      position falls below -SCREEN_WIDTH. */
  function ScrollBackground(x: int): (r: int)
    ensures -SCREEN_WIDTH <= x <= 0 ==> -SCREEN_WIDTH <= r <= 0
    ensures x - 1 >= -SCREEN_WIDTH ==> r == x - 1
    ensures x - 1 < -SCREEN_WIDTH ==> r == 0
  {
    if x - 1 < -SCREEN_WIDTH then 0 else x - 1
  }

  /** Starting with the background at any position in range, it stays in range
      for any number of frames. */
  lemma {:induction false} ScrollStaysInRange(x: int, frames: nat)
    requires -SCREEN_WIDTH <= x <= 0
    ensures -SCREEN_WIDTH <= Iterate(x, frames) <= 0
    decreases frames
  {
    if frames > 0 {
      ScrollStaysInRange(ScrollBackground(x), frames - 1);
    }
  }

  /** The background position after `frames` frames. */
  function Iterate(x: int, frames: nat): int
    decreases frames
  {
    if frames == 0 then x else Iterate(ScrollBackground(x), frames - 1)
  }

  /** The background scroll is periodic: from 0 it is back at 0 after 1281 frames. */
  lemma {:induction false} ScrollPeriod(k: nat)
    requires k <= SCREEN_WIDTH
    ensures Iterate(-(k as int), SCREEN_WIDTH + 1 - k) == 0
    decreases SCREEN_WIDTH - k
  {
    if k < SCREEN_WIDTH {
      ScrollPeriod(k + 1);
    }
  }

  /** Vertical spawn position of an enemy from a non-negative random value. */
  function SpawnY(rand: nat): (y: int)
    ensures 0 <= y < SCREEN_HEIGHT
  {
    rand % SCREEN_HEIGHT
  }

  /** Horizontal speed of a new enemy: always leftward, 4 to 7 pixels a frame. */
  function SpawnDx(rand: nat): (dx: int)
    ensures -7 <= dx <= -4
  {
    -(4 + rand % 4)
  }

  /** Frames until the next spawn: 10 to 69. */
  function SpawnDelay(rand: nat): (t: int)
    ensures 10 <= t <= 69
  {
    10 + rand % 60
  }

  /** Every value in each stated range is reached by some random value. */
  lemma SpawnRangesReached(y: int, dx: int, t: int)
    requires 0 <= y < SCREEN_HEIGHT && -7 <= dx <= -4 && 10 <= t <= 69
    ensures SpawnY(y as nat) == y && SpawnDx((-dx - 4) as nat) == dx && SpawnDelay((t - 10) as nat) == t
  {
  }
}
