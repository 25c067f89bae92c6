/** The bird: its vertical kinematics (`Bird.jump`, `Bird.move`) and the
    wing-flap frame counter of `Bird.draw`.  Positions and velocities are
    exact reals: every constant of the game is a multiple of 0.5, so no
    floating-point rounding is involved. */
module Kinematics {

  const MAX_ROTATION: int := 25
  const ROTATION_VELOCITY: int := 20
  const ANIMATION_TIME: int := 5
  /** Tilt at or below which the bird is drawn gliding (frame 1). */
  const DIVE_TILT: int := -80
  /** Tilt above which a falling bird keeps turning nose-down. */
  const TURN_LIMIT: int := -90

  const JUMP_VELOCITY: real := -10.5
  /** Coefficient of t*t in the displacement formula. */
  const ACCELERATION: real := 1.5
  /** Largest downward displacement per tick. */
  const MAX_DROP: real := 16.0
  /** Extra upward push applied to an upward displacement. */
  const UP_BIAS: real := 2.0
  /** A bird less than this far below its last jump height still counts as rising. */
  const RISE_BAND: real := 50.0

  /** The fields of a bird; `frame` is the index into the three bird images
      (the `img` attribute). */
  datatype BirdState = BirdState(
    x: int, y: real, tilt: int, tickCount: nat, velocity: real,
    height: real, imgCount: int, frame: nat)

  /** A bird as constructed at (x, y). */
  function NewBird(x: int, y: real): (b: BirdState)
    ensures b.x == x && b.y == y && b.height == y
    ensures b.tilt == 0 && TiltInRange(b.tilt) && b.tickCount == 0 && b.velocity == 0.0
    ensures b.imgCount == 0 && b.frame == 0
  {
    BirdState(x, y, 0, 0, 0.0, y, 0, 0)
  }

  function Min(a: real, b: real): real { if a <= b then a else b }

  /** The unclamped displacement v*t + 1.5*t^2. */
  function RawDisplacement(v: real, t: nat): real {
    v * (t as real) + ACCELERATION * ((t * t) as real)
  }

  /** Displacement applied by one move, `t` ticks after the last jump: the
      raw displacement capped at 16, and 2 further up when it is upward. */
  function Displacement(v: real, t: nat): (d: real)
    ensures d <= MAX_DROP
    ensures d < 0.0 <==> RawDisplacement(v, t) < 0.0
    ensures RawDisplacement(v, t) >= 0.0 ==> d == Min(RawDisplacement(v, t), MAX_DROP)
    ensures RawDisplacement(v, t) < 0.0 ==> d == RawDisplacement(v, t) - UP_BIAS
  {
    var raw := RawDisplacement(v, t);
    var capped := if raw >= MAX_DROP then MAX_DROP else raw;
    if capped < 0.0 then capped - UP_BIAS else capped
  }

  /** The range a tilt starting at 0 never leaves: at most 25, and always
      above -110 (a bird at -89 still turns 20 further, to -109). */
  predicate TiltInRange(tilt: int) {
    -110 < tilt <= MAX_ROTATION
  }

  /** Tilt after a move: a rising bird snaps to the maximum rotation, a
      falling one turns nose-down by 20 while it is above -90. */
  function NextTilt(tilt: int, rising: bool): (r: int)
    ensures TiltInRange(tilt) ==> TiltInRange(r)
    ensures TiltInRange(tilt) && rising ==> r == MAX_ROTATION
    ensures !rising ==> (tilt > TURN_LIMIT && r == tilt - ROTATION_VELOCITY) || (tilt <= TURN_LIMIT && r == tilt)
  {
    if rising then (if tilt < MAX_ROTATION then MAX_ROTATION else tilt)
    else if tilt > TURN_LIMIT then tilt - ROTATION_VELOCITY
    else tilt
  }

  /** `Bird.move`. */
  function Moved(b: BirdState): (r: BirdState)
    ensures r.tickCount == b.tickCount + 1
    ensures r.y == b.y + Displacement(b.velocity, r.tickCount) && r.y <= b.y + MAX_DROP
    ensures r.x == b.x && r.velocity == b.velocity && r.height == b.height
    ensures r.imgCount == b.imgCount && r.frame == b.frame
    ensures TiltInRange(b.tilt) ==> TiltInRange(r.tilt)
  {
    var t := b.tickCount + 1;
    var d := Displacement(b.velocity, t);
    var y := b.y + d;
    b.(tickCount := t, y := y, tilt := NextTilt(b.tilt, d < 0.0 || y < b.height + RISE_BAND))
  }

  /** `Bird.jump`. */
  function Jumped(b: BirdState): (r: BirdState)
    ensures r.velocity == JUMP_VELOCITY && r.tickCount == 0 && r.height == b.y
    ensures r.x == b.x && r.y == b.y && r.tilt == b.tilt && r.imgCount == b.imgCount && r.frame == b.frame
  {
    b.(velocity := JUMP_VELOCITY, tickCount := 0, height := b.y)
  }

  /** The counter and frame logic of `Bird.draw`: the counter runs 1..20,
      choosing frames 0, 1, 2, 1 in blocks of five (at 20 the frame is left
      as it was), and the count 21 restarts it at 0; a diving bird is held
      at frame 1 with the counter at 10. */
  function Animated(b: BirdState): (r: BirdState)
    ensures 0 <= b.imgCount <= 4 * ANIMATION_TIME ==> 0 <= r.imgCount <= 4 * ANIMATION_TIME
    ensures b.frame <= 2 ==> r.frame <= 2
    ensures b.tilt <= DIVE_TILT ==> r.frame == 1 && r.imgCount == 2 * ANIMATION_TIME
    ensures r == b.(imgCount := r.imgCount, frame := r.frame)
  {
    var c := b.imgCount + 1;
    var counted :=
      if c < ANIMATION_TIME then b.(imgCount := c, frame := 0)
      else if c < ANIMATION_TIME * 2 then b.(imgCount := c, frame := 1)
      else if c < ANIMATION_TIME * 3 then b.(imgCount := c, frame := 2)
      else if c < ANIMATION_TIME * 4 then b.(imgCount := c, frame := 1)
      else if c == ANIMATION_TIME * 4 + 1 then b.(imgCount := 0, frame := 0)
      else b.(imgCount := c);
    if b.tilt <= DIVE_TILT then counted.(imgCount := ANIMATION_TIME * 2, frame := 1)
    else counted
  }

  /** The bird after `n` moves with no jump. */
  function Fallen(b: BirdState, n: nat): BirdState {
    if n == 0 then b else Moved(Fallen(b, n - 1))
  }

  /** The bird after one tick of `main` per entry of `jumps`: it moves,
      then jumps when the entry is true. */
  function Flight(b: BirdState, jumps: seq<bool>): BirdState
    decreases |jumps|
  {
    if |jumps| == 0 then b
    else
      var m := Moved(Flight(b, jumps[..|jumps| - 1]));
      if jumps[|jumps| - 1] then Jumped(m) else m
  }

  /** Whatever its network decides, a bird that starts level never tilts
      beyond 25 degrees up and never reaches -110. */
  lemma {:induction false} FlightTilt(b: BirdState, jumps: seq<bool>)
    requires b.tilt == 0
    ensures TiltInRange(Flight(b, jumps).tilt)
    decreases |jumps|
  {
    if |jumps| > 0 {
      FlightTilt(b, jumps[..|jumps| - 1]);
    }
  }

  /** A bird dropped from rest turns past -90: during the first four ticks
      it stays within 50 of its start and points up (25); from the fifth it
      turns down by 20 per tick, reaching -95 at the tenth move and keeping
      that tilt for every later move. */
  lemma {:induction false} FallPastTurnLimit(x: int, y: real, n: nat)
    requires n >= 10
    ensures Fallen(NewBird(x, y), n).tilt == -95
    decreases n
  {
    if n == 10 {
      FallTilt(x, y, 1);
      FallTilt(x, y, 2);
      FallTilt(x, y, 3);
      FallTilt(x, y, 4);
      FallTilt(x, y, 5);
      FallTilt(x, y, 6);
      FallTilt(x, y, 7);
      FallTilt(x, y, 8);
      FallTilt(x, y, 9);
      FallTilt(x, y, 10);
    } else {
      FallPastTurnLimit(x, y, n - 1);
      FallTilt(x, y, n);
    }
  }

  /** Move `n` of a bird dropped from rest turns it as a rising bird
      exactly for the first four moves, and as a falling one for every
      later move. */
  lemma {:induction false} FallTilt(x: int, y: real, n: nat)
    requires 1 <= n
    ensures Fallen(NewBird(x, y), n).tilt == NextTilt(Fallen(NewBird(x, y), n - 1).tilt, n <= 4)
  {
    var b := NewBird(x, y);
    FreeFall(b, n);
    FreeFall(b, n - 1);
    var prev := Fallen(b, n - 1);
    assert Fallen(b, n) == Moved(prev);
    RestDisplacement(n);
    var d := Displacement(prev.velocity, n);
    assert d >= 0.0;
    assert (Fallen(b, n).y < prev.height + RISE_BAND) == (n <= 4);
  }

  /** The bird after `n` draws. */
  function Flapped(b: BirdState, n: nat): BirdState {
    if n == 0 then b else Animated(Flapped(b, n - 1))
  }

  /** A jump followed by one move lifts the bird by exactly 11
      (-10.5 + 1.5, then the upward bias of 2) and points it up. */
  lemma {:induction false} JumpThenMove(b: BirdState)
    requires TiltInRange(b.tilt)
    ensures Moved(Jumped(b)).y == b.y - 11.0
    ensures Moved(Jumped(b)).tickCount == 1
    ensures Moved(Jumped(b)).tilt == MAX_ROTATION
  {
  }

  /** From the ninth tick after a jump on (or with any velocity not below
      the jump velocity) the bird falls at the capped rate of 16 per tick. */
  lemma {:induction false} DisplacementCapped(v: real, t: nat)
    requires v >= JUMP_VELOCITY && t >= 9
    ensures Displacement(v, t) == MAX_DROP
  {
    var tr := t as real;
    assert t * t >= 9 * t by {
      assert t * t - 9 * t == t * (t - 9);
    }
    assert ((t * t) as real) >= 9.0 * tr;
    assert v * tr >= JUMP_VELOCITY * tr by {
      assert v * tr - JUMP_VELOCITY * tr == (v - JUMP_VELOCITY) * tr;
    }
    assert RawDisplacement(v, t) >= 3.0 * tr;
  }

  /** Displacement of a bird that has not jumped: 1.5 t^2 while below the cap. */
  lemma {:induction false} RestDisplacement(n: nat)
    requires n >= 1
    ensures Displacement(0.0, n) == (if n == 1 then 1.5 else if n == 2 then 6.0 else if n == 3 then 13.5 else MAX_DROP)
  {
    if n >= 4 {
      assert n * n >= 4 * n;
      assert RawDisplacement(0.0, n) >= 24.0;
    } else {
      assert n * n == (if n == 1 then 1 else if n == 2 then 4 else 9);
    }
  }

  /** Position of a bird that never jumps, starting at rest: 1.5, 6 and 13.5
      in the first three ticks, then 16 per tick. */
  lemma {:induction false} FreeFall(b: BirdState, n: nat)
    requires b.velocity == 0.0 && b.tickCount == 0
    ensures Fallen(b, n).tickCount == n && Fallen(b, n).velocity == 0.0
    ensures Fallen(b, n).x == b.x && Fallen(b, n).height == b.height
    ensures n == 1 ==> Fallen(b, n).y == b.y + 1.5
    ensures n == 2 ==> Fallen(b, n).y == b.y + 7.5
    ensures n >= 3 ==> Fallen(b, n).y == b.y + 21.0 + 16.0 * ((n - 3) as real)
  {
    if n > 0 {
      var prev := Fallen(b, n - 1);
      FreeFall(b, n - 1);
      RestDisplacement(n);
      assert Fallen(b, n).y == prev.y + Displacement(0.0, n);
    }
  }

  /** The frame a bird shows after `c` draws from a fresh counter (0 < c <= 20). */
  function ScheduledFrame(c: int): nat {
    if c < ANIMATION_TIME then 0
    else if c < ANIMATION_TIME * 2 then 1
    else if c < ANIMATION_TIME * 3 then 2
    else 1
  }

  /** Over the first twenty draws of a bird that is not diving, the counter
      counts the draws and the frame follows the 0, 1, 2, 1 schedule. */
  lemma {:induction false} FlapSchedule(b: BirdState, n: nat)
    requires b.imgCount == 0 && b.tilt > DIVE_TILT
    requires 0 < n <= 4 * ANIMATION_TIME
    ensures Flapped(b, n) == b.(imgCount := n, frame := ScheduledFrame(n))
  {
    if n > 1 {
      FlapSchedule(b, n - 1);
    }
  }

  /** The flap animation has period 21: the 21st draw restores the bird. */
  lemma {:induction false} FlapCycle(b: BirdState)
    requires b.imgCount == 0 && b.frame == 0 && b.tilt > DIVE_TILT
    ensures Flapped(b, 4 * ANIMATION_TIME + 1) == b
  {
    FlapSchedule(b, 4 * ANIMATION_TIME);
  }

  /** A bird object; the Python attributes `x`, `y`, `tilt`, `tick_count`,
      `velocity`, `height`, `img_count` and the index of `img`. */
  class Bird {
    const x: int
    var y: real
    var tilt: int
    var tickCount: nat
    var velocity: real
    var height: real
    var imgCount: int
    var frame: nat

    function State(): BirdState
      reads this
    {
      BirdState(x, y, tilt, tickCount, velocity, height, imgCount, frame)
    }

    constructor (x0: int, y0: real)
      ensures State() == NewBird(x0, y0)
    {
      x := x0;
      y := y0;
      tilt := 0;
      tickCount := 0;
      velocity := 0.0;
      height := y0;
      imgCount := 0;
      frame := 0;
    }

    /** Sets the upward velocity, restarts the tick counter and remembers
        the height of the jump; nothing else changes. */
    method Jump()
      modifies this
      ensures velocity == JUMP_VELOCITY && tickCount == 0 && height == old(y)
      ensures y == old(y) && tilt == old(tilt) && imgCount == old(imgCount) && frame == old(frame)
      ensures State() == Jumped(old(State()))
    {
      velocity := JUMP_VELOCITY;
      tickCount := 0;
      height := y;
    }

    method Move()
      modifies this
      ensures tickCount == old(tickCount) + 1
      ensures y - old(y) == Displacement(old(velocity), tickCount) <= MAX_DROP
      ensures TiltInRange(old(tilt)) ==> TiltInRange(tilt)
      ensures State() == Moved(old(State()))
    {
      tickCount := tickCount + 1;
      var d := velocity * (tickCount as real) + ACCELERATION * ((tickCount * tickCount) as real);
      assert d == RawDisplacement(velocity, tickCount);
      if d >= MAX_DROP {
        d := MAX_DROP;
      }
      if d < 0.0 {
        d := d - UP_BIAS;
      }
      assert d == Displacement(velocity, tickCount);
      y := y + d;
      if d < 0.0 || y < height + RISE_BAND {
        if tilt < MAX_ROTATION {
          tilt := MAX_ROTATION;
        }
      } else {
        if tilt > TURN_LIMIT {
          tilt := tilt - ROTATION_VELOCITY;
        }
      }
    }

    /** The frame-counter part of `Bird.draw` (the rotation and blit are
        rendering). */
    method Draw()
      modifies this
      ensures 0 <= old(imgCount) <= 4 * ANIMATION_TIME ==> 0 <= imgCount <= 4 * ANIMATION_TIME
      ensures old(tilt) <= DIVE_TILT ==> frame == 1 && imgCount == 2 * ANIMATION_TIME
      ensures State() == Animated(old(State()))
    {
      imgCount := imgCount + 1;
      if imgCount < ANIMATION_TIME {
        frame := 0;
      } else if imgCount < ANIMATION_TIME * 2 {
        frame := 1;
      } else if imgCount < ANIMATION_TIME * 3 {
        frame := 2;
      } else if imgCount < ANIMATION_TIME * 4 {
        frame := 1;
      } else if imgCount == ANIMATION_TIME * 4 + 1 {
        frame := 0;
        imgCount := 0;
      }
      if tilt <= DIVE_TILT {
        frame := 1;
        imgCount := ANIMATION_TIME * 2;
      }
    }
  }
}
