/** The duck of the revised duck-hunt game, `hooks/useDuckLogic.ts`: three
    state updaters handed to React's `setDuck`. Two react to key events and
    drive the boost (a double tap gives a short burst on a timer, a held
    arrow a sustained one); the third advances the duck by one frame. Each is
    a function from the old `DuckState` to the new one. Numbers are exact
    reals; the clock (`performance.now()`), the id `setTimeout` hands out and
    the incline angle `Math.PI / 10` are parameters. */
module DuckLogic {
  import opened Wrappers

  // ----- constants of utils/constants.ts -----

  const Width: real := 1100.0
  const Height: real := 600.0
  const DuckGlideIndexLeft: int := 2
  const DuckGlideIndexRight: int := 1
  const DuckSpriteTotalFrames: int := 4
  const DuckDisplaySize: real := 60.0
  const DuckSpeed: real := 1.0
  const DuckFlapVelocityY: real := -0.5
  const Gravity: real := 0.005
  const FlapDurationFrames: int := 120
  const AnimationSpeed: int := 20
  /** The frame period while boosting (a literal in `updateDuck`). */
  const BoostAnimationSpeed: int := 15
  const BoostMultiplier: real := 2.0
  const SustainedPressThreshold: real := 3000.0
  const DoubleTapThreshold: real := 300.0
  /** The per-frame decay of both velocities while boosting with no arrow held. */
  const Decay: real := 0.98
  /** The largest vertical speed either way. */
  const MaxVelocityY: real := 5.0

  // ----- DuckState of utils/types.ts -----

  datatype Direction = Left | Right
  datatype Animate = Flap | Glide | Shot

  datatype DuckState = DuckState(
    x: real, y: real,
    velocityY: real, velocityX: real,
    direction: Direction,
    spriteFrameIndex: int,
    animationTimer: int,
    currentAngle: real,
    animate: Animate,
    flapDurationTimer: int,
    boostActive: bool,
    boostStartTime: Option<real>,
    lastArrowKeyTime: Option<real>,
    lastArrowKeyPressed: Option<string>,
    boostTimeoutId: Option<int>)

  /** The state `useState` starts from: the duck in the middle of the canvas,
      gliding to the right, with no boost and nothing tracked. */
  function InitialDuck(): (d: DuckState)
    ensures Sane(d) && !d.boostActive && d.boostTimeoutId.None?
  {
    DuckState(Width / 2.0, Height / 2.0, 0.0, 0.0, Right, 1, 0, 0.0, Glide, 0,
              false, None, None, None, None)
  }

  /** What every frame keeps: the duck on the canvas, the vertical speed
      bounded, a valid sprite index, and non-negative timers. */
  ghost predicate Sane(d: DuckState)
  {
    && 0.0 <= d.x <= Width - DuckDisplaySize
    && 0.0 <= d.y <= Height - DuckDisplaySize
    && -MaxVelocityY <= d.velocityY <= MaxVelocityY
    && 0 <= d.spriteFrameIndex < DuckSpriteTotalFrames
    && d.flapDurationTimer >= 0
    && d.animationTimer >= 0
  }

  predicate IsArrow(key: string)
  {
    key == "ArrowLeft" || key == "ArrowRight"
  }

  /** JavaScript truthiness of a timeout id: `null` and `0` are false. */
  predicate Truthy(id: Option<int>)
  {
    id.Some? && id.value != 0
  }

  // ----- handleKeyDownBoost -----

  /** The new state, and the timeout id handed to `clearTimeout`, if any. */
  datatype KeyDownOutcome = KeyDownOutcome(state: DuckState, cleared: Option<int>)

  /** A double tap: the same arrow as the last one, less than
      `DOUBLE_TAP_THRESHOLD` ms after it. */
  predicate DoubleTap(d: DuckState, key: string, now: real)
  {
    d.lastArrowKeyPressed == Some(key) && d.lastArrowKeyTime.Some?
    && now - d.lastArrowKeyTime.value < DoubleTapThreshold
  }

  /** The keydown updater for `key` at time `now`; `timerId` is what
      `setTimeout` returns if a short burst is armed. */
  function KeyDown(d: DuckState, key: string, now: real, timerId: int): (r: KeyDownOutcome)
    // a pending timeout is always cleared first, so at most one is ever armed
    ensures r.cleared == (if Truthy(d.boostTimeoutId) then d.boostTimeoutId else None)
    ensures r.state.boostTimeoutId == (if IsArrow(key) && DoubleTap(d, key, now) then Some(timerId)
                                       else if Truthy(d.boostTimeoutId) then None else d.boostTimeoutId)
    // a double tap starts the burst and forgets the tap, so a third tap is not a second double tap
    ensures IsArrow(key) && DoubleTap(d, key, now) ==>
      r.state.boostActive && r.state.lastArrowKeyPressed.None? && r.state.lastArrowKeyTime.None?
      && r.state.boostStartTime == d.boostStartTime
    // any other arrow press is remembered, and starts the sustained-press clock
    ensures IsArrow(key) && !DoubleTap(d, key, now) ==>
      r.state.boostActive == d.boostActive && r.state.lastArrowKeyPressed == Some(key)
      && r.state.lastArrowKeyTime == Some(now) && r.state.boostStartTime == Some(now)
    // any other key ends the boost and forgets the tracking
    ensures !IsArrow(key) ==>
      !r.state.boostActive && r.state.lastArrowKeyPressed.None?
      && r.state.lastArrowKeyTime.None? && r.state.boostStartTime.None?
    ensures SameMotion(d, r.state)
  {
    var cleared := if Truthy(d.boostTimeoutId) then d.boostTimeoutId else None;
    var timeoutId := if Truthy(d.boostTimeoutId) then None else d.boostTimeoutId;
    var s :=
      if IsArrow(key) then
        if d.lastArrowKeyPressed == Some(key) && d.lastArrowKeyTime.Some?
           && now - d.lastArrowKeyTime.value < DoubleTapThreshold then
          d.(boostActive := true, boostTimeoutId := Some(timerId),
             lastArrowKeyPressed := None, lastArrowKeyTime := None)
        else
          d.(boostTimeoutId := timeoutId, lastArrowKeyTime := Some(now),
             lastArrowKeyPressed := Some(key), boostStartTime := Some(now))
      else
        d.(boostTimeoutId := timeoutId, lastArrowKeyTime := None,
           lastArrowKeyPressed := None, boostStartTime := None, boostActive := false);
    KeyDownOutcome(s, cleared)
  }

  /** The fields the key handlers never touch: position, velocities,
      direction, angle and animation. */
  predicate SameMotion(d: DuckState, e: DuckState)
  {
    e == d.(boostActive := e.boostActive, boostStartTime := e.boostStartTime,
            lastArrowKeyTime := e.lastArrowKeyTime, lastArrowKeyPressed := e.lastArrowKeyPressed,
            boostTimeoutId := e.boostTimeoutId)
  }

  /** The callback of the short-burst timeout: the burst ends. */
  function BurstEnds(d: DuckState): (r: DuckState)
    ensures !r.boostActive && r.boostStartTime.None?
    ensures SameMotion(d, r) && r.boostTimeoutId == d.boostTimeoutId
    ensures r.lastArrowKeyPressed == d.lastArrowKeyPressed && r.lastArrowKeyTime == d.lastArrowKeyTime
  {
    d.(boostActive := false, boostStartTime := None)
  }

  // ----- handleKeyUpBoost -----

  /** The new state, and the timeout id handed to `clearTimeout`, if any. */
  datatype KeyUpOutcome = KeyUpOutcome(state: DuckState, cleared: Option<int>)

  /** The keyup updater: releasing an arrow ends a sustained boost, or a
      short burst whose timeout is still pending (cancelling the timeout);
      any other release, or an arrow release with no boost, changes nothing. */
  function KeyUp(d: DuckState, key: string): (r: KeyUpOutcome)
    ensures IsArrow(key) && ((d.boostActive && d.boostTimeoutId.None?) || Truthy(d.boostTimeoutId)) ==>
      !r.state.boostActive && r.state.boostStartTime.None? && r.state.boostTimeoutId.None?
      && r.state.lastArrowKeyPressed == d.lastArrowKeyPressed && r.state.lastArrowKeyTime == d.lastArrowKeyTime
      && SameMotion(d, r.state)
    ensures !(IsArrow(key) && ((d.boostActive && d.boostTimeoutId.None?) || Truthy(d.boostTimeoutId))) ==>
      r.state == d
    ensures r.cleared == (if IsArrow(key) && !(d.boostActive && d.boostTimeoutId.None?) && Truthy(d.boostTimeoutId)
                          then d.boostTimeoutId else None)
  {
    if !IsArrow(key) then KeyUpOutcome(d, None)
    else if d.boostActive && d.boostTimeoutId == None then
      KeyUpOutcome(d.(boostActive := false, boostStartTime := None, boostTimeoutId := None), None)
    else if Truthy(d.boostTimeoutId) then
      KeyUpOutcome(d.(boostActive := false, boostStartTime := None, boostTimeoutId := None), d.boostTimeoutId)
    else KeyUpOutcome(d, None)
  }

  /** Releasing the same key twice has the effect of releasing it once. */
  lemma KeyUpIdempotent(d: DuckState, key: string)
    ensures KeyUp(KeyUp(d, key).state, key).state == KeyUp(d, key).state
    ensures KeyUp(KeyUp(d, key).state, key).cleared.None?
  {
  }

  /** After a double tap, tapping the same arrow again at once does not arm a
      second burst: it is recorded as a first tap. */
  lemma NoTripleTap(d: DuckState, key: string, t1: real, t2: real, id1: int, id2: int)
    requires IsArrow(key) && DoubleTap(d, key, t1)
    ensures var e := KeyDown(d, key, t1, id1).state;
      var r := KeyDown(e, key, t2, id2);
      !DoubleTap(e, key, t2) && r.cleared == (if id1 != 0 then Some(id1) else None)
      && r.state.lastArrowKeyPressed == Some(key) && r.state.boostActive
  {
  }

  // ----- updateDuck -----

  /** The sustained-press check: boost turns on once an arrow has been held
      for `SUSTAINED_PRESS_THRESHOLD` ms since `boostStartTime`. */
  function SustainedBoost(d: DuckState, keys: set<string>, now: real): (on: bool)
    ensures d.boostActive ==> on
    ensures on && !d.boostActive ==>
      d.boostStartTime.Some? && now - d.boostStartTime.value >= SustainedPressThreshold
      && ("ArrowLeft" in keys || "ArrowRight" in keys)
  {
    if !d.boostActive && d.boostStartTime.Some? && ("ArrowLeft" in keys || "ArrowRight" in keys)
       && now - d.boostStartTime.value >= SustainedPressThreshold
    then true
    else d.boostActive
  }

  /** What the key handling of one frame decides, before the bounds. */
  datatype Motion = Motion(velocityX: real, velocityY: real, direction: Direction,
                           angle: real, animate: Animate, flapTimer: int)

  function Abs(v: real): real
  {
    if v < 0.0 then -v else v
  }

  /** The horizontal speed of the frame: doubled while boosting. */
  function CurrentSpeed(boost: bool): (v: real)
    ensures v == (if boost then BoostMultiplier * DuckSpeed else DuckSpeed)
  {
    DuckSpeed * (if boost then BoostMultiplier else 1.0)
  }

  /** The incline relaxing towards level while gliding, by `GRAVITY / 5` per
      frame. */
  function Relax(angle: real): (a: real)
    ensures Abs(a) <= Abs(angle)
    ensures angle >= 0.0 ==> a >= 0.0
    ensures angle <= 0.0 ==> a <= 0.0
    ensures Abs(angle) >= Gravity / 5.0 ==> Abs(a) == Abs(angle) - Gravity / 5.0
  {
    var a1 := if angle > 0.0 then (if angle - Gravity / 5.0 > 0.0 then angle - Gravity / 5.0 else 0.0) else angle;
    if a1 < 0.0 then (if a1 + Gravity / 5.0 < 0.0 then a1 + Gravity / 5.0 else 0.0) else a1
  }

  /** The velocities, direction, incline, animation and flap timer the keys
      of this frame lead to. Space flaps: a fixed push up and a fixed step
      forward, tilted up. Otherwise gravity pulls, the flap timer runs down,
      and the arrows steer. */
  function Steer(d: DuckState, keys: set<string>, boost: bool, incline: real): (m: Motion)
    ensures " " in keys ==>
      m.animate == Flap && m.velocityY == DuckFlapVelocityY && m.flapTimer == FlapDurationFrames
      && m.direction == d.direction
      && m.velocityX == (if d.direction == Right then DuckSpeed else -DuckSpeed)
      && m.angle == (if d.direction == Right then -incline else incline)
    ensures " " !in keys ==>
      m.flapTimer == (if d.flapDurationTimer - 1 > 0 then d.flapDurationTimer - 1 else 0)
      && m.animate == (if m.flapTimer > 0 || boost then Flap else Glide)
      && (m.animate == Glide ==> m.angle == Relax(d.currentAngle))
      && (m.animate == Flap ==> m.angle == d.currentAngle)
    ensures " " !in keys && "ArrowLeft" in keys ==> m.direction == Left && m.velocityX == -CurrentSpeed(boost)
    ensures " " !in keys && "ArrowLeft" !in keys && "ArrowRight" in keys ==>
      m.direction == Right && m.velocityX == CurrentSpeed(boost)
    ensures " " !in keys && "ArrowLeft" !in keys && "ArrowRight" !in keys ==> m.direction == d.direction
    ensures " " !in keys && "ArrowLeft" !in keys && "ArrowRight" !in keys && !boost ==>
      m.velocityX == (if d.direction == Right then CurrentSpeed(boost) else -CurrentSpeed(boost))
    ensures m.animate != Shot && m.flapTimer >= 0
  {
    var speed := CurrentSpeed(boost);
    var coasting := boost && "ArrowLeft" !in keys && "ArrowRight" !in keys;
    var vx := if coasting then d.velocityX * Decay else d.velocityX;
    var vy := if coasting then d.velocityY * Decay else d.velocityY;
    if " " in keys then
      if d.direction == Right then Motion(DuckSpeed, DuckFlapVelocityY, d.direction, -incline, Flap, FlapDurationFrames)
      else Motion(-DuckSpeed, DuckFlapVelocityY, d.direction, incline, Flap, FlapDurationFrames)
    else
      var flap := if 0 > d.flapDurationTimer - 1 then 0 else d.flapDurationTimer - 1;
      var animate := if flap > 0 || boost then Flap else Glide;
      var angle := if animate == Flap then d.currentAngle else Relax(d.currentAngle);
      var vy' := vy + Gravity;
      if "ArrowLeft" in keys then Motion(-speed, vy', Left, angle, animate, flap)
      else if "ArrowRight" in keys then Motion(speed, vy', Right, angle, animate, flap)
      else if !boost then
        Motion(if d.direction == Right then speed else -speed, vy', d.direction, angle, animate, flap)
      else Motion(vx, vy', d.direction, angle, animate, flap)
  }

  /** `Math.max(Math.min(v, 5), -5)`. */
  function ClampVelocityY(v: real): (w: real)
    ensures -MaxVelocityY <= w <= MaxVelocityY
    ensures -MaxVelocityY <= v <= MaxVelocityY ==> w == v
    ensures v > MaxVelocityY ==> w == MaxVelocityY
    ensures v < -MaxVelocityY ==> w == -MaxVelocityY
  {
    var w1 := if v < MaxVelocityY then v else MaxVelocityY;
    if w1 > -MaxVelocityY then w1 else -MaxVelocityY
  }

  /** One axis after the boundary check: the coordinate moved by the
      velocity, put back on the canvas (and the velocity stopped) when it
      would leave it; `hit` says whether it did. */
  datatype Axis = Axis(pos: real, velocity: real, hit: bool)

  function Bound(pos: real, velocity: real, extent: real): (a: Axis)
    requires extent >= DuckDisplaySize
    ensures 0.0 <= a.pos <= extent - DuckDisplaySize
    ensures a.hit <==> pos + velocity < 0.0 || pos + velocity > extent - DuckDisplaySize
    ensures !a.hit ==> a.pos == pos + velocity && a.velocity == velocity
    ensures a.hit ==> a.velocity == 0.0 && a.pos == (if pos + velocity < 0.0 then 0.0 else extent - DuckDisplaySize)
  {
    var p := pos + velocity;
    if p < 0.0 then Axis(0.0, 0.0, true)
    else if p + DuckDisplaySize > extent then Axis(extent - DuckDisplaySize, 0.0, true)
    else Axis(p, velocity, false)
  }

  /** JavaScript `%` on integers: the remainder takes the sign of the
      dividend. */
  function JsRem(a: int, b: int): (r: int)
    requires b > 0
    ensures a >= 0 ==> 0 <= r < b && r == a % b
    ensures a < 0 ==> -b < r <= 0
  {
    if a >= 0 then a % b else -((-a) % b)
  }

  /** The sprite for the frame: while flapping it advances every 20 frames
      (15 while boosting); while gliding it is the glide frame of the
      direction. */
  function Sprite(index: int, timer: int, animate: Animate, boost: bool, direction: Direction): (i: int)
    ensures animate != Flap ==> i == (if direction == Right then DuckGlideIndexRight else DuckGlideIndexLeft)
    ensures animate == Flap && 0 <= index < DuckSpriteTotalFrames ==> 0 <= i < DuckSpriteTotalFrames
    ensures animate == Flap && JsRem(timer, if boost then BoostAnimationSpeed else AnimationSpeed) != 0 ==> i == index
    ensures animate == Flap && JsRem(timer, if boost then BoostAnimationSpeed else AnimationSpeed) == 0 ==>
      i == JsRem(index + 1, DuckSpriteTotalFrames)
  {
    if animate == Flap then
      var speed := if boost then BoostAnimationSpeed else AnimationSpeed;
      if JsRem(timer, speed) == 0 then JsRem(index + 1, DuckSpriteTotalFrames) else index
    else if direction == Right then DuckGlideIndexRight
    else DuckGlideIndexLeft
  }

  /** `updateDuck`'s updater for the keys held in this frame at time `now`. */
  function UpdateDuck(d: DuckState, keys: set<string>, now: real, incline: real): (r: DuckState)
    ensures 0.0 <= r.x <= Width - DuckDisplaySize && 0.0 <= r.y <= Height - DuckDisplaySize
    ensures -MaxVelocityY <= r.velocityY <= MaxVelocityY
    ensures r.flapDurationTimer == (if " " in keys then FlapDurationFrames
                                    else if d.flapDurationTimer - 1 > 0 then d.flapDurationTimer - 1 else 0)
    ensures r.animationTimer == d.animationTimer + 1
    ensures r.animate == Glide ==> r.spriteFrameIndex == (if r.direction == Right then 1 else 2)
    ensures 0 <= d.spriteFrameIndex < DuckSpriteTotalFrames ==> 0 <= r.spriteFrameIndex < DuckSpriteTotalFrames
    // the keys decide the direction, the animation and the incline
    ensures var m := Steer(d, keys, SustainedBoost(d, keys, now), incline);
      r.direction == m.direction && r.animate == m.animate && r.currentAngle == m.angle
    // hitting the left or right edge puts the duck on it, stops it and ends the boost
    ensures var m := Steer(d, keys, SustainedBoost(d, keys, now), incline);
      var nx := d.x + m.velocityX;
      (nx < 0.0 ==> r.x == 0.0 && r.velocityX == 0.0 && !r.boostActive)
      && (nx > Width - DuckDisplaySize ==> r.x == Width - DuckDisplaySize && r.velocityX == 0.0 && !r.boostActive)
      && (0.0 <= nx <= Width - DuckDisplaySize ==> r.x == nx && r.velocityX == m.velocityX
                                                   && r.boostActive == SustainedBoost(d, keys, now))
    // hitting the top or bottom edge puts the duck on it and stops it vertically
    ensures var m := Steer(d, keys, SustainedBoost(d, keys, now), incline);
      var vy := ClampVelocityY(m.velocityY);
      var ny := d.y + vy;
      (ny < 0.0 ==> r.y == 0.0 && r.velocityY == 0.0)
      && (ny > Height - DuckDisplaySize ==> r.y == Height - DuckDisplaySize && r.velocityY == 0.0)
      && (0.0 <= ny <= Height - DuckDisplaySize ==> r.y == ny && r.velocityY == vy)
    // the sprite advances on the new timer, at the boost's pace as it stands after the bounds
    ensures r.spriteFrameIndex ==
      Sprite(d.spriteFrameIndex, d.animationTimer + 1, r.animate, r.boostActive, r.direction)
    // the key handlers' tracking is left alone
    ensures r.boostStartTime == d.boostStartTime && r.lastArrowKeyTime == d.lastArrowKeyTime
    ensures r.lastArrowKeyPressed == d.lastArrowKeyPressed && r.boostTimeoutId == d.boostTimeoutId
  {
    var boost := SustainedBoost(d, keys, now);
    var m := Steer(d, keys, boost, incline);
    var vy := ClampVelocityY(m.velocityY);
    var ax := Bound(d.x, m.velocityX, Width);
    var ay := Bound(d.y, vy, Height);
    var boost' := if ax.hit then false else boost;
    var timer := d.animationTimer + 1;
    var index := Sprite(d.spriteFrameIndex, timer, m.animate, boost', m.direction);
    d.(animate := m.animate, x := ax.pos, y := ay.pos, velocityY := ay.velocity,
       velocityX := ax.velocity, direction := m.direction, currentAngle := m.angle,
       flapDurationTimer := m.flapTimer, spriteFrameIndex := index,
       animationTimer := timer, boostActive := boost')
  }

  /** Every updater keeps a sane duck sane, so every state the game reaches
      from the initial one is sane. */
  lemma UpdatesKeepSane(d: DuckState, keys: set<string>, key: string, now: real, incline: real, id: int)
    requires Sane(d)
    ensures Sane(UpdateDuck(d, keys, now, incline))
    ensures Sane(KeyDown(d, key, now, id).state)
    ensures Sane(KeyUp(d, key).state)
    ensures Sane(BurstEnds(d))
  {
  }

  /** A duck resting on the bottom edge, not rising, with no key held, stays
      on the edge with no vertical speed: gravity pulls it against the edge
      and the bound stops it. */
  lemma RestsOnFloor(d: DuckState, now: real, incline: real)
    requires d.y == Height - DuckDisplaySize && d.velocityY >= 0.0
    ensures UpdateDuck(d, {}, now, incline).y == Height - DuckDisplaySize
    ensures UpdateDuck(d, {}, now, incline).velocityY == 0.0
  {
    var m := Steer(d, {}, SustainedBoost(d, {}, now), incline);
    assert m.velocityY > 0.0;
  }

  /** While gliding the incline only ever relaxes towards level. */
  lemma GlideRelaxes(d: DuckState, keys: set<string>, now: real, incline: real)
    requires UpdateDuck(d, keys, now, incline).animate == Glide
    ensures Abs(UpdateDuck(d, keys, now, incline).currentAngle) <= Abs(d.currentAngle)
  {
  }
}
