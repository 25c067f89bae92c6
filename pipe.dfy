/** A pipe pair: `Pipe.set_height` and `Pipe.move`.  The pipe image is
    104 pixels wide and 640 high (the doubled asset); its pixels only
    matter to the collision test, which is not modelled here. */
module Pipes {

  const GAP: int := 200
  const PIPE_VELOCITY: int := 5
  const PIPE_IMG_HEIGHT: int := 640
  const PIPE_IMG_WIDTH: int := 104
  /** The random gap height is drawn from [MIN_HEIGHT, MAX_HEIGHT). */
  const MIN_HEIGHT: int := 50
  const MAX_HEIGHT: int := 450

  predicate Drawable(draw: int) {
    MIN_HEIGHT <= draw < MAX_HEIGHT
  }

  /** The attributes of a pipe pair that the game reads (`gap` is never read). */
  datatype PipeState = PipeState(x: int, height: int, top: int, bottom: int, passed: bool)

  /** The shape `set_height` gives a pipe: the top pipe hangs above `height`
      and the bottom pipe starts `GAP` below it. */
  predicate WellFormed(p: PipeState) {
    Drawable(p.height) && p.top == p.height - PIPE_IMG_HEIGHT && p.bottom == p.height + GAP
  }

  /** A pipe as constructed at `x` when the random draw gives `draw`. */
  function NewPipe(x: int, draw: int): (p: PipeState)
    requires Drawable(draw)
    ensures WellFormed(p) && p.x == x && !p.passed && p.height == draw
    ensures MIN_HEIGHT <= p.height < MAX_HEIGHT
    ensures p.bottom - p.top == GAP + PIPE_IMG_HEIGHT
  {
    PipeState(x, draw, draw - PIPE_IMG_HEIGHT, draw + GAP, false)
  }

  /** `Pipe.move` on a pipe value. */
  function MovedPipe(p: PipeState): (r: PipeState)
    ensures r.x == p.x - PIPE_VELOCITY
    ensures r.height == p.height && r.top == p.top && r.bottom == p.bottom && r.passed == p.passed
    ensures WellFormed(p) ==> WellFormed(r)
  {
    p.(x := p.x - PIPE_VELOCITY)
  }

  class Pipe {
    var x: int
    var height: int
    const gap: int
    var top: int
    var bottom: int
    var passed: bool

    function State(): PipeState
      reads this
    {
      PipeState(x, height, top, bottom, passed)
    }

    constructor (x0: int, draw: int)
      requires Drawable(draw)
      ensures State() == NewPipe(x0, draw)
      ensures gap == 100
    {
      x := x0;
      height := 0;
      gap := 100;
      top := 0;
      bottom := 0;
      passed := false;
      new;
      SetHeight(draw);
    }

    /** `draw` is the value `random.randrange(50, 450)` returns. */
    method SetHeight(draw: int)
      requires Drawable(draw)
      modifies this`height, this`top, this`bottom
      ensures MIN_HEIGHT <= height < MAX_HEIGHT
      ensures height == draw && bottom == height + GAP && top == height - PIPE_IMG_HEIGHT
      ensures WellFormed(State())
    {
      height := draw;
      top := height - PIPE_IMG_HEIGHT;
      bottom := height + GAP;
    }

    method Move()
      modifies this`x
      ensures x == old(x) - PIPE_VELOCITY
      ensures State() == MovedPipe(old(State()))
    {
      x := x - PIPE_VELOCITY;
    }
  }
}
