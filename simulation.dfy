/** The state `main` keeps between two ticks of its game loop, the rules
    that state obeys, and the pure parts of a tick: the choice of the pipe
    the networks look at, the decision each network makes, and which birds
    the collision passes eliminate. */
module Simulation {
  import opened Lists
  import opened Removal
  import opened Kinematics
  import opened Pipes

  const WIN_WIDTH: int := 500
  /** The y coordinate of the ground (`Base(730)` and the ground test). */
  const FLOOR: int := 730
  /** Height of the (doubled) bird images; all three frames have it. */
  const BIRD_IMG_HEIGHT: int := 48
  /** How far a bird's image may sink into the ground before it counts. */
  const FLOOR_SLACK: int := 10
  /** A bird above this y has left the top of the screen. */
  const CEILING: int := -50
  /** The generation ends once the score exceeds this. */
  const SCORE_LIMIT: nat := 30
  const START_X: int := 230
  const START_Y: real := 350.0
  const FIRST_PIPE_X: int := 600
  /** A network output above this makes its bird jump. */
  const JUMP_THRESHOLD: real := 0.5

  /** Fitness is kept in tenths: 0.1 per tick survived, 1 per collision,
      5 per pipe passed. */
  const TICK_REWARD: int := 1
  const COLLISION_PENALTY: int := 10
  const PASS_REWARD: int := 50

  /** The network of a genome, applied to (y, distance to the gap's top,
      distance to the bottom pipe); networks are named by the id of the
      genome they were built from.  NEAT itself is not part of this model. */
  type Activation = (nat, real, real, real) -> real

  /** The pixel-mask overlap test of `Pipe.collide`. */
  type Collision = (PipeState, BirdState) -> bool

  /** The variables of `main`: the three parallel lists, the fitness of
      every genome by id (in tenths), the pipes and the score. */
  datatype State = State(
    birds: seq<BirdState>, nets: seq<nat>, gen: seq<nat>,
    fitness: seq<int>, pipes: seq<PipeState>, score: nat)

  /** Every pipe is at least this far to the right of every pipe before it. */
  const PIPE_SPACING: int := WIN_WIDTH - START_X

  predicate Spread(ps: seq<PipeState>) {
    forall i, j :: 0 <= i < j < |ps| ==> ps[j].x - ps[i].x > PIPE_SPACING
  }

  /** The pipe list between ticks: never empty, every pipe shaped by
      `set_height` and not yet off the left edge; every pipe but the last
      has been passed, the last one not, and it is still to the right of
      the birds. */
  predicate PipesValid(ps: seq<PipeState>) {
    |ps| > 0 &&
    (forall j :: 0 <= j < |ps| ==> WellFormed(ps[j]) && ps[j].x + PIPE_IMG_WIDTH >= 0) &&
    (forall j :: 0 <= j < |ps| - 1 ==> ps[j].passed && ps[j].x < START_X) &&
    !ps[|ps| - 1].passed && ps[|ps| - 1].x >= START_X &&
    Spread(ps)
  }

  /** The three lists have one entry per live bird and stay in step: the
      network at index k is the one built from the genome at index k. */
  predicate Valid(s: State) {
    |s.birds| == |s.gen| && s.nets == s.gen && Distinct(s.gen) &&
    (forall k :: 0 <= k < |s.gen| ==> s.gen[k] < |s.fitness|) &&
    (forall k :: 0 <= k < |s.birds| ==> s.birds[k].x == START_X) &&
    PipesValid(s.pipes)
  }

  /** `pipe_index`: the second pipe once the first bird is past the first. */
  function PipeIndex(birds: seq<BirdState>, pipes: seq<PipeState>): (i: nat)
    requires |birds| > 0 && |pipes| > 0
    ensures i < |pipes|
  {
    if |pipes| > 1 && birds[0].x > pipes[0].x + PIPE_IMG_WIDTH then 1 else 0
  }

  /** The pipe the networks look at is the first one the birds have not
      completely flown past: exactly the pipes before it are behind them. */
  lemma {:induction false} PipeIndexFirstAhead(s: State)
    requires Valid(s) && |s.birds| > 0
    ensures forall j :: 0 <= j < |s.pipes| ==>
              (s.birds[0].x > s.pipes[j].x + PIPE_IMG_WIDTH <==> j < PipeIndex(s.birds, s.pipes))
  {
    forall j | 0 < j < |s.pipes|
      ensures s.birds[0].x <= s.pipes[j].x + PIPE_IMG_WIDTH
    {
      assert s.pipes[j].x - s.pipes[0].x > PIPE_SPACING;
    }
  }

  function Abs(r: real): real { if r < 0.0 then -r else r }

  /** One bird's turn in the first loop of a tick: it moves, then its
      network sees the pipe `p` and decides whether it jumps. */
  function Thought(act: Activation, net: nat, b: BirdState, p: PipeState): (r: BirdState)
    ensures r.x == b.x
    ensures r == Moved(b) || r == Jumped(Moved(b))
  {
    var m := Moved(b);
    if act(net, m.y, Abs(m.y - p.height as real), Abs(m.y - p.bottom as real)) > JUMP_THRESHOLD
    then Jumped(m) else m
  }

  /** Whether pipe `p`, already moved, hits a bird. */
  function HitBy(collides: Collision, p: PipeState): BirdState -> bool {
    b => collides(p, b)
  }

  /** The birds that survive the collision passes over the (unmoved) pipes
      `ps`: one removal pass per pipe, in the order of the pipe list, each
      over what the previous ones left. */
  function CollisionMask(bs: seq<BirdState>, collides: Collision, ps: seq<PipeState>): (m: seq<bool>)
    ensures |m| == |bs|
    decreases |ps|
  {
    if |ps| == 0 then AllKept(|bs|)
    else
      var a := CollisionMask(bs, collides, ps[..|ps| - 1]);
      Compose(a, SweepMask(Pick(bs, a, true), HitBy(collides, MovedPipe(ps[|ps| - 1]))))
  }

  /** A bird the collision passes eliminate hit one of the moved pipes. */
  lemma {:induction false} CollisionDropped(bs: seq<BirdState>, collides: Collision, ps: seq<PipeState>, x: BirdState)
    requires x in Pick(bs, CollisionMask(bs, collides, ps), false)
    ensures exists j :: 0 <= j < |ps| && collides(MovedPipe(ps[j]), x)
    decreases |ps|
  {
    if |ps| == 0 {
      PickAll(bs, |bs|);
      assert false;
    } else {
      var k := |ps| - 1;
      var a := CollisionMask(bs, collides, ps[..k]);
      var out := HitBy(collides, MovedPipe(ps[k]));
      var kept := Pick(bs, a, true);
      ComposeDropped(bs, a, SweepMask(kept, out), x);
      if x in Pick(bs, a, false) {
        CollisionDropped(bs, collides, ps[..k], x);
        var j :| 0 <= j < k && collides(MovedPipe(ps[..k][j]), x);
        assert ps[..k][j] == ps[j];
      } else {
        SweepDropsOnlyOut(kept, out, x);
      }
    }
  }

  /** A bird no moved pipe hits survives every collision pass. */
  lemma {:induction false} UntouchedSurvives(bs: seq<BirdState>, collides: Collision, ps: seq<PipeState>, k: nat)
    requires k < |bs|
    requires forall j :: 0 <= j < |ps| ==> !collides(MovedPipe(ps[j]), bs[k])
    ensures CollisionMask(bs, collides, ps)[k]
  {
    var m := CollisionMask(bs, collides, ps);
    if !m[k] {
      DroppedAt(bs, m, k);
      CollisionDropped(bs, collides, ps, bs[k]);
      assert false;
    }
  }

  /** The ground and ceiling test of the last removal pass. */
  predicate OutOfBounds(b: BirdState) {
    b.y + (BIRD_IMG_HEIGHT - FLOOR_SLACK) as real >= FLOOR as real || b.y < CEILING as real
  }

  /** A bird that never jumps from the start position is out of bounds for
      the first time after its 24th move: after 23 moves it is at y = 691,
      one pixel above the ground test, and after 24 at y = 707. */
  lemma {:induction false} GroundAfter24Moves()
    ensures forall n: nat :: n < 24 ==> !OutOfBounds(Fallen(NewBird(START_X, START_Y), n))
    ensures OutOfBounds(Fallen(NewBird(START_X, START_Y), 24))
  {
    var b := NewBird(START_X, START_Y);
    forall n: nat | n < 24
      ensures !OutOfBounds(Fallen(b, n))
    {
      FreeFall(b, n);
    }
    FreeFall(b, 24);
  }

  /** Whether moving the pipes makes one that was not passed pass the birds. */
  predicate Passes(ps: seq<PipeState>) {
    exists j :: 0 <= j < |ps| && !ps[j].passed && MovedPipe(ps[j]).x < START_X
  }

  /** Between ticks only the last pipe can still be passed. */
  lemma {:induction false} PassesLast(ps: seq<PipeState>)
    requires PipesValid(ps)
    ensures Passes(ps) <==> ps[|ps| - 1].x - PIPE_VELOCITY < START_X
  {
    if Passes(ps) {
      var j :| 0 <= j < |ps| && !ps[j].passed && MovedPipe(ps[j]).x < START_X;
      assert j == |ps| - 1;
    }
  }

  /** The pipe after it moved and, if it now lies left of the birds for the
      first time, got marked as passed. */
  function Marked(p: PipeState, birdX: int): (r: PipeState)
    ensures r.x == p.x && r.height == p.height && r.top == p.top && r.bottom == p.bottom
    ensures r.passed <==> p.passed || p.x < birdX
  {
    if !p.passed && p.x < birdX then p.(passed := true) else p
  }

  /** Whether the moved pipe has left the screen and gets removed. */
  predicate Gone(p: PipeState) {
    p.x + PIPE_IMG_WIDTH < 0
  }

  /** The pipe list after the pipe loop of a tick moved and marked every
      pipe. */
  function MarkedPipes(ps: seq<PipeState>): (r: seq<PipeState>)
    ensures |r| == |ps| && forall k :: 0 <= k < |ps| ==> r[k] == Marked(MovedPipe(ps[k]), START_X)
    decreases |ps|
  {
    if |ps| == 0 then [] else MarkedPipes(ps[..|ps| - 1]) + [Marked(MovedPipe(ps[|ps| - 1]), START_X)]
  }

  /** Which pipes the pipe loop leaves in place (those not in `remove`). */
  function KeptMask(ps: seq<PipeState>): (r: seq<bool>)
    ensures |r| == |ps| && forall k :: 0 <= k < |ps| ==> r[k] == !Gone(MovedPipe(ps[k]))
    decreases |ps|
  {
    if |ps| == 0 then [] else KeptMask(ps[..|ps| - 1]) + [!Gone(MovedPipe(ps[|ps| - 1]))]
  }

  /** The pipe list at the end of a tick: the moved and marked pipes
      without the removed ones, and a new pipe at the right edge of the
      window, with random height `draw`, when one was passed. */
  function NextPipes(ps: seq<PipeState>, draw: int): seq<PipeState>
    requires Drawable(draw)
  {
    Pick(MarkedPipes(ps), KeptMask(ps), true) + (if Passes(ps) then [NewPipe(WIN_WIDTH, draw)] else [])
  }

  /** Removing pipes keeps the others in order, so keeps them spread. */
  lemma {:induction false} PickSpread(ps: seq<PipeState>, m: seq<bool>)
    requires |m| <= |ps| && Spread(ps)
    ensures Spread(Pick(ps, m, true))
    decreases |m|
  {
    if |m| > 0 {
      var n := |m| - 1;
      var p0 := Pick(ps, m[..n], true);
      PickSpread(ps, m[..n]);
      if m[n] {
        var p := p0 + [ps[n]];
        assert Pick(ps, m, true) == p;
        forall i, j | 0 <= i < j < |p|
          ensures p[j].x - p[i].x > PIPE_SPACING
        {
          PickIndex(ps, m[..n], true, i);
          if j < |p0| {
            assert p[i] == p0[i] && p[j] == p0[j];
          }
        }
      }
    }
  }

  /** Every pipe of the kept part came from a kept moved pipe. */
  lemma {:induction false} KeptPipe(ps: seq<PipeState>, n: nat, i: nat)
    requires n <= |ps| && i < |Pick(MarkedPipes(ps), KeptMask(ps)[..n], true)|
    ensures exists j :: 0 <= j < n && !Gone(MovedPipe(ps[j])) &&
              Pick(MarkedPipes(ps), KeptMask(ps)[..n], true)[i] == Marked(MovedPipe(ps[j]), START_X)
  {
    PickIndex(MarkedPipes(ps), KeptMask(ps)[..n], true, i);
    var j :| 0 <= j < n && KeptMask(ps)[..n][j] && MarkedPipes(ps)[j] == Pick(MarkedPipes(ps), KeptMask(ps)[..n], true)[i];
    assert KeptMask(ps)[j];
  }

  /** What the pipe loop keeps: the passed pipes still on screen, then the
      old last pipe, moved and marked, all still spread. */
  lemma {:induction false} KeptPart(ps: seq<PipeState>)
    requires PipesValid(ps)
    ensures var p := Pick(MarkedPipes(ps), KeptMask(ps), true);
            |p| > 0 && Spread(p) && p[|p| - 1] == Marked(MovedPipe(ps[|ps| - 1]), START_X) &&
            (forall i :: 0 <= i < |p| ==> WellFormed(p[i]) && p[i].x + PIPE_IMG_WIDTH >= 0) &&
            (forall i :: 0 <= i < |p| - 1 ==> p[i].passed && p[i].x < START_X)
  {
    var n := |ps| - 1;
    var marked, keep := MarkedPipes(ps), KeptMask(ps);
    var p0 := Pick(marked, keep[..n], true);
    var p := Pick(marked, keep, true);
    assert p == p0 + [marked[n]] by {
      assert keep[..n] == keep[..|keep| - 1];
    }
    assert Spread(marked) by {
      forall i, j | 0 <= i < j < |marked|
        ensures marked[j].x - marked[i].x > PIPE_SPACING
      {
        assert marked[j].x - marked[i].x == ps[j].x - ps[i].x;
      }
    }
    PickSpread(marked, keep);
    forall i | 0 <= i < |p0|
      ensures WellFormed(p[i]) && p[i].x + PIPE_IMG_WIDTH >= 0 && p[i].passed && p[i].x < START_X
    {
      KeptPipe(ps, n, i);
      assert p[i] == p0[i];
    }
  }

  /** Appending a pipe at the right edge once every pipe is passed. */
  lemma {:induction false} AppendValid(p: seq<PipeState>, q: PipeState)
    requires Spread(p) && WellFormed(q) && !q.passed && q.x == WIN_WIDTH
    requires forall i :: 0 <= i < |p| ==> WellFormed(p[i]) && p[i].x + PIPE_IMG_WIDTH >= 0
    requires forall i :: 0 <= i < |p| ==> p[i].passed && p[i].x < START_X
    ensures PipesValid(p + [q])
  {
    var r := p + [q];
    forall i, j | 0 <= i < j < |r|
      ensures r[j].x - r[i].x > PIPE_SPACING
    {
      if j < |p| {
        assert r[i] == p[i] && r[j] == p[j];
      }
    }
    assert forall i :: 0 <= i < |p| ==> r[i] == p[i];
  }

  /** A tick keeps the pipe list valid.  The last pipe is a new one at the
      right edge when a pipe was passed, and otherwise the old last pipe,
      five further left. */
  lemma {:induction false} NextPipesValid(ps: seq<PipeState>, draw: int)
    requires PipesValid(ps) && Drawable(draw)
    ensures PipesValid(NextPipes(ps, draw))
    ensures var r := NextPipes(ps, draw);
            r[|r| - 1].x == (if Passes(ps) then WIN_WIDTH else ps[|ps| - 1].x - PIPE_VELOCITY)
  {
    if Passes(ps) {
      NextPipesPassed(ps, draw);
    } else {
      NextPipesKept(ps, draw);
    }
  }

  /** `NextPipesValid` for a tick that passes the last pipe. */
  lemma {:induction false} NextPipesPassed(ps: seq<PipeState>, draw: int)
    requires PipesValid(ps) && Drawable(draw) && Passes(ps)
    ensures PipesValid(NextPipes(ps, draw)) && NextPipes(ps, draw)[|NextPipes(ps, draw)| - 1].x == WIN_WIDTH
  {
    var p := Pick(MarkedPipes(ps), KeptMask(ps), true);
    PassesLast(ps);
    KeptPart(ps);
    assert NextPipes(ps, draw) == p + [NewPipe(WIN_WIDTH, draw)];
    AppendValid(p, NewPipe(WIN_WIDTH, draw));
  }

  /** `NextPipesValid` for a tick that passes no pipe. */
  lemma {:induction false} NextPipesKept(ps: seq<PipeState>, draw: int)
    requires PipesValid(ps) && Drawable(draw) && !Passes(ps)
    ensures PipesValid(NextPipes(ps, draw))
    ensures NextPipes(ps, draw)[|NextPipes(ps, draw)| - 1].x == ps[|ps| - 1].x - PIPE_VELOCITY
  {
    var p := Pick(MarkedPipes(ps), KeptMask(ps), true);
    PassesLast(ps);
    KeptPart(ps);
    assert NextPipes(ps, draw) == p;
    KeptValid(p, MovedPipe(ps[|ps| - 1]));
  }

  /** The kept part alone is a valid pipe list when its last pipe, now
      marked, is still right of the birds. */
  lemma {:induction false} KeptValid(p: seq<PipeState>, q: PipeState)
    requires |p| > 0 && Spread(p) && p[|p| - 1] == Marked(q, START_X)
    requires !q.passed && q.x >= START_X
    requires forall i :: 0 <= i < |p| ==> WellFormed(p[i]) && p[i].x + PIPE_IMG_WIDTH >= 0
    requires forall i :: 0 <= i < |p| - 1 ==> p[i].passed && p[i].x < START_X
    ensures PipesValid(p) && p[|p| - 1].x == q.x
  {
  }

  /** Every bird after its turn in the first loop of a tick. */
  function ThoughtsOf(act: Activation, nets: seq<nat>, birds: seq<BirdState>, p: PipeState): (r: seq<BirdState>)
    requires |nets| == |birds|
    ensures |r| == |birds| && forall k :: 0 <= k < |birds| ==> r[k] == Thought(act, nets[k], birds[k], p)
    decreases |birds|
  {
    if |birds| == 0 then []
    else
      var n := |birds| - 1;
      ThoughtsOf(act, nets[..n], birds[..n], p) + [Thought(act, nets[n], birds[n], p)]
  }

  /** The birds of `s` after the first loop of a tick, in which every
      network looks at the pipe at `pipe_index`. */
  function Aloft(s: State, act: Activation): (r: seq<BirdState>)
    requires Valid(s) && |s.birds| > 0
    ensures |r| == |s.birds|
  {
    ThoughtsOf(act, s.nets, s.birds, s.pipes[PipeIndex(s.birds, s.pipes)])
  }

  /** Which of those birds survive the collision passes of the tick. */
  function Survivors(s: State, act: Activation, collides: Collision): (m: seq<bool>)
    requires Valid(s) && |s.birds| > 0
    ensures |m| == |s.birds|
  {
    CollisionMask(Aloft(s, act), collides, s.pipes)
  }
}
