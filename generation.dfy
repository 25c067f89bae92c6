/** `main`: one generation of the game, from setting up a bird per genome to
    the end of the game loop. */
module Generation {
  import opened Lists
  import opened Removal
  import opened Kinematics
  import opened Pipes
  import opened Ground
  import opened Simulation
  import opened GameLoop

  /** The set-up loop of `main`: for every genome a network, a reset
      fitness and a bird at the start position; then the first pipe.  The
      fitness of genomes not in this generation is left alone. */
  method Setup(genomes: seq<nat>, fitness: seq<int>, draw: int) returns (s: State)
    requires Distinct(genomes) && Drawable(draw)
    requires forall k :: 0 <= k < |genomes| ==> genomes[k] < |fitness|
    ensures Valid(s)
    ensures s.gen == genomes && s.nets == genomes && |s.birds| == |genomes|
    ensures forall k :: 0 <= k < |s.birds| ==> s.birds[k] == NewBird(START_X, START_Y)
    ensures s.pipes == [NewPipe(FIRST_PIPE_X, draw)] && s.score == 0
    ensures |s.fitness| == |fitness|
    ensures forall g :: 0 <= g < |fitness| ==> s.fitness[g] == if g in genomes then 0 else fitness[g]
  {
    var nets: seq<nat>, gen: seq<nat>, birds: seq<BirdState> := [], [], [];
    var f := fitness;
    var i := 0;
    while i < |genomes|
      invariant 0 <= i <= |genomes|
      invariant nets == genomes[..i] && gen == genomes[..i] && |birds| == i
      invariant forall k :: 0 <= k < i ==> birds[k] == NewBird(START_X, START_Y)
      invariant |f| == |fitness|
      invariant forall g :: 0 <= g < |fitness| ==> f[g] == if g in genomes[..i] then 0 else fitness[g]
    {
      var id := genomes[i];
      assert genomes[..i + 1] == genomes[..i] + [id];
      nets := nets + [id];
      f := f[id := 0];
      gen := gen + [id];
      birds := birds + [NewBird(START_X, START_Y)];
      i := i + 1;
    }
    assert genomes[..|genomes|] == genomes;
    s := State(birds, nets, gen, f, [NewPipe(FIRST_PIPE_X, draw)], 0);
  }

  /** The flap-counter part of drawing every bird in `draw_window`. */
  method AnimateAll(birds: seq<BirdState>) returns (birds': seq<BirdState>)
    ensures |birds'| == |birds|
    ensures forall k :: 0 <= k < |birds| ==> birds'[k] == Animated(birds[k])
  {
    birds' := birds;
    var i := 0;
    while i < |birds|
      invariant 0 <= i <= |birds| && |birds'| == |birds|
      invariant forall k :: 0 <= k < i ==> birds'[k] == Animated(birds[k])
      invariant forall k :: i <= k < |birds| ==> birds'[k] == birds[k]
    {
      birds' := birds'[i := Animated(birds'[i])];
      i := i + 1;
    }
  }

  /** A measure of how far a game is from its end: each tick either moves
      the last pipe 5 to the left or passes it, which raises the score. */
  function Progress(s: State): nat
    requires PipesValid(s.pipes) && s.score <= SCORE_LIMIT + 1
  {
    (SCORE_LIMIT + 1 - s.score) * 1000 + s.pipes[|s.pipes| - 1].x
  }

  /** A tick that does not end the game brings it closer to its end. */
  lemma {:induction false} TickProgress(s: State, r: State, draw: int)
    requires Valid(s) && Drawable(draw) && |s.birds| > 0
    requires s.score <= SCORE_LIMIT && r.score <= SCORE_LIMIT
    requires r.pipes == NextPipes(s.pipes, draw)
    requires r.score == s.score + 1 <==> Passes(s.pipes)
    requires r.score == s.score || r.score == s.score + 1
    ensures PipesValid(r.pipes)
    ensures Progress(r) < Progress(s)
  {
    NextPipesValid(s.pipes, draw);
  }

  /** One pass of the game loop up to redrawing: the tick and, when the
      game goes on, the birds' flap animation.  A pass that does not end
      the game brings it closer to its end. */
  method Round(s: State, act: Activation, collides: Collision, draw: int) returns (r: State, stop: bool)
    requires Valid(s) && Drawable(draw) && s.score <= SCORE_LIMIT
    ensures Valid(r) && r.score <= SCORE_LIMIT + 1 && |r.fitness| == |s.fitness|
    ensures forall x :: x in r.gen ==> x in s.gen
    ensures stop <==> |s.birds| == 0 || r.score > SCORE_LIMIT
    ensures |s.birds| == 0 ==> r == s
    ensures !stop ==> Progress(r) < Progress(s)
    ensures forall g :: 0 <= g < |s.fitness| && g !in s.gen ==> r.fitness[g] == s.fitness[g]
    ensures |s.birds| > 0 ==> Played(s, act, collides, draw, r, stop)
  {
    r, stop := Tick(s, act, collides, draw);
    if |s.birds| > 0 {
      var m := Survivors(s, act, collides);
      forall g | 0 <= g < |s.fitness| && g !in s.gen
        ensures r.fitness[g] == s.fitness[g]
      {
        var left: seq<nat> := Pick<nat>(s.gen, m, true);
        if g in left {
          PickMember<nat>(s.gen, m, true, g);
        }
      }
    }
    if !stop {
      TickProgress(s, r, draw);
      var birds := AnimateAll(r.birds);
      AnimatedValid(r, birds);
      r := r.(birds := birds);
    }
  }

  /** What one pass of the game loop over a game with birds produces: the
      pipes, the genomes and fitness of the tick, and the surviving birds,
      drawn once more when the game goes on. */
  ghost predicate Played(s: State, act: Activation, collides: Collision, draw: int, r: State, stop: bool)
    requires Valid(s) && Drawable(draw) && |s.birds| > 0
  {
    var flying := Pick(Aloft(s, act), Survivors(s, act, collides), true);
    var landed := Pick(flying, SweepMask(flying, OutOfBounds), true);
    var left := Pick(s.gen, Survivors(s, act, collides), true);
    r.pipes == NextPipes(s.pipes, draw) &&
    r.gen == Pick(left, SweepMask(flying, OutOfBounds), true) &&
    |r.birds| == |landed| &&
    (forall k :: 0 <= k < |landed| ==> r.birds[k] == if stop then landed[k] else Animated(landed[k])) &&
    |r.fitness| == |s.fitness| &&
    forall g :: 0 <= g < |s.fitness| ==>
      r.fitness[g] == s.fitness[g] + (if g in s.gen then TICK_REWARD else 0)
                      - (if g in s.gen && g !in left then COLLISION_PENALTY else 0)
                      + (if Passes(s.pipes) && g in left then PASS_REWARD else 0)
  }

  /** Drawing the birds keeps the state valid. */
  lemma {:induction false} AnimatedValid(r: State, birds: seq<BirdState>)
    requires Valid(r) && |birds| == |r.birds|
    requires forall k :: 0 <= k < |birds| ==> birds[k] == Animated(r.birds[k])
    ensures Valid(r.(birds := birds))
  {
  }

  /** One generation: `main` for the genomes `genomes`, whose fitness table
      `fitness` it resets and then updates.  `draws[k]` is the random height
      of the k-th pipe created; a generation creates at most 32.  The
      ground is `baseWidth` wide and has moved once per pass that did not
      end the game.  The game always ends, and it ends only when every bird
      is gone or the score is above 30. */
  method RunGeneration(genomes: seq<nat>, fitness: seq<int>, baseWidth: int,
                       act: Activation, collides: Collision, draws: seq<int>)
    returns (s: State, base: Base, ticks: nat)
    requires Distinct(genomes) && baseWidth > BASE_VELOCITY
    requires forall k :: 0 <= k < |genomes| ==> genomes[k] < |fitness|
    requires |draws| >= SCORE_LIMIT + 2 && forall k :: 0 <= k < |draws| ==> Drawable(draws[k])
    ensures Valid(s)
    ensures |s.birds| == 0 || s.score > SCORE_LIMIT
    ensures s.score <= SCORE_LIMIT + 1
    ensures |s.fitness| == |fitness|
    ensures forall x :: x in s.gen ==> x in genomes
    ensures base.Valid() && base.y == FLOOR && base.width == baseWidth
    ensures (base.x1, base.x2) == ScrolledN(0, baseWidth, baseWidth, ticks)
    ensures forall g :: 0 <= g < |fitness| && g !in genomes ==> s.fitness[g] == fitness[g]
  {
    s := Setup(genomes, fitness, draws[0]);
    base := new Base(FLOOR, baseWidth);
    ticks := 0;
    var stop := false;
    while !stop
      invariant Valid(s) && s.score <= SCORE_LIMIT + 1 && |s.fitness| == |fitness|
      invariant stop ==> |s.birds| == 0 || s.score > SCORE_LIMIT
      invariant !stop ==> s.score <= SCORE_LIMIT
      invariant forall x :: x in s.gen ==> x in genomes
      invariant base.Valid() && base.y == FLOOR && base.width == baseWidth
      invariant (base.x1, base.x2) == ScrolledN(0, baseWidth, baseWidth, ticks)
      invariant forall g :: 0 <= g < |fitness| && g !in genomes ==> s.fitness[g] == fitness[g]
      decreases if stop then 0 else Progress(s) + 1
    {
      var r;
      r, stop := Round(s, act, collides, draws[s.score + 1]);
      if !stop {
        base.Move();
        ticks := ticks + 1;
      }
      s := r;
    }
  }
}
