/** One pass of the game loop of `main`: the loops of a tick, each as the
    method that runs it, and the tick that chains them. */
module GameLoop {
  import opened Lists
  import opened Removal
  import opened Kinematics
  import opened Pipes
  import opened Simulation

  /** The first loop of a tick: every bird earns the tick reward, moves,
      and jumps if its network says so.  `pipe` is the pipe at
      `pipe_index`.  Also returns the loop variable `bird` after the loop. */
  method ThinkAll(birds: seq<BirdState>, nets: seq<nat>, gen: seq<nat>, fitness: seq<int>,
                  pipe: PipeState, act: Activation)
    returns (birds': seq<BirdState>, fitness': seq<int>, last: BirdState)
    requires |nets| == |birds| && |gen| == |birds| && |birds| > 0
    requires forall k :: 0 <= k < |gen| ==> gen[k] < |fitness|
    ensures |birds'| == |birds|
    ensures forall k :: 0 <= k < |birds| ==> birds'[k] == Thought(act, nets[k], birds[k], pipe)
    ensures fitness' == Adjust(fitness, gen, TICK_REWARD)
    ensures last == birds'[|birds| - 1]
  {
    birds', fitness', last := birds, fitness, birds[0];
    var i := 0;
    while i < |birds|
      invariant 0 <= i <= |birds| && |birds'| == |birds|
      invariant forall k :: 0 <= k < i ==> birds'[k] == Thought(act, nets[k], birds[k], pipe)
      invariant forall k :: i <= k < |birds| ==> birds'[k] == birds[k]
      invariant fitness' == Adjust(fitness, gen[..i], TICK_REWARD)
      invariant i > 0 ==> last == birds'[i - 1]
    {
      AdjustSnoc(fitness, gen[..i], gen[i], TICK_REWARD);
      assert gen[..i + 1] == gen[..i] + [gen[i]];
      fitness' := fitness'[gen[i] := fitness'[gen[i]] + TICK_REWARD];
      var b := Moved(birds[i]);
      var output := act(nets[i], b.y, Abs(b.y - pipe.height as real), Abs(b.y - pipe.bottom as real));
      if output > JUMP_THRESHOLD {
        b := Jumped(b);
      }
      assert b == Thought(act, nets[i], birds[i], pipe);
      birds' := birds'[i := b];
      last := b;
      i := i + 1;
    }
    assert gen[..|birds|] == gen;
  }

  /** The reward loop after a pipe was passed: every genome still in the
      game earns `PASS_REWARD`. */
  method Reward(gen: seq<nat>, fitness: seq<int>) returns (fitness': seq<int>)
    requires forall k :: 0 <= k < |gen| ==> gen[k] < |fitness|
    ensures fitness' == Adjust(fitness, gen, PASS_REWARD)
  {
    fitness' := fitness;
    var i := 0;
    while i < |gen|
      invariant 0 <= i <= |gen|
      invariant fitness' == Adjust(fitness, gen[..i], PASS_REWARD)
    {
      AdjustSnoc(fitness, gen[..i], gen[i], PASS_REWARD);
      assert gen[..i + 1] == gen[..i] + [gen[i]];
      fitness' := fitness'[gen[i] := fitness'[gen[i]] + PASS_REWARD];
      i := i + 1;
    }
    assert gen[..|gen|] == gen;
  }

  /** The removal loop `for r in remove: pipes.remove(r)`: the pipes the
      mask does not keep leave the list, the others keep their order. */
  method Prune(pipes: seq<PipeState>, keep: seq<bool>) returns (pipes': seq<PipeState>)
    requires |keep| == |pipes|
    ensures pipes' == Pick(pipes, keep, true)
  {
    pipes' := [];
    var j := 0;
    while j < |pipes|
      invariant 0 <= j <= |pipes|
      invariant pipes' == Pick(pipes, keep[..j], true)
    {
      assert keep[..j + 1] == keep[..j] + [keep[j]];
      PickStep(pipes, keep[..j], keep[j], true);
      if keep[j] {
        pipes' := pipes' + [pipes[j]];
      }
      j := j + 1;
    }
    assert keep[..|pipes|] == keep;
  }

  /** The fitness table after a removal pass that took the genomes of `gen`
      not in `gen'` out of the game, charging each of them `delta`. */
  predicate Penalised(fitness: seq<int>, gen: seq<nat>, fitness': seq<int>, gen': seq<nat>, delta: int) {
    |fitness'| == |fitness| &&
    forall g :: 0 <= g < |fitness| ==> fitness'[g] == fitness[g] + (if g in gen && g !in gen' then delta else 0)
  }

  /** A removal pass charges exactly the genomes it removes. */
  lemma {:induction false} SweepPenalised(fitness: seq<int>, gen: seq<nat>, m: seq<bool>, delta: int)
    requires |m| == |gen| && Distinct(gen)
    ensures Penalised(fitness, gen, Adjust(fitness, Pick(gen, m, false), delta), Pick(gen, m, true), delta)
  {
    forall g | 0 <= g < |fitness|
      ensures Adjust(fitness, Pick(gen, m, false), delta)[g] ==
              fitness[g] + (if g in gen && g !in Pick(gen, m, true) then delta else 0)
    {
      AdjustDropped(fitness, gen, m, delta, g);
      assert gen[..|m|] == gen;
    }
  }

  /** Two removal passes in a row charge what the two remove together. */
  lemma {:induction false} PenalisedTrans(f0: seq<int>, g0: seq<nat>, f1: seq<int>, g1: seq<nat>,
                                          f2: seq<int>, g2: seq<nat>, delta: int)
    requires Penalised(f0, g0, f1, g1, delta) && Penalised(f1, g1, f2, g2, delta)
    requires forall x :: x in g2 ==> x in g1
    requires forall x :: x in g1 ==> x in g0
    ensures Penalised(f0, g0, f2, g2, delta)
  {
  }

  /** The lists after the collision passes of the (unmoved) pipes `ps`:
      the birds, networks and genomes those passes left, the removed
      genomes charged, and the loop variable `bird` still one of the birds. */
  ghost predicate ListsScanned(birds: seq<BirdState>, gen: seq<nat>, fitness: seq<int>,
                               collides: Collision, ps: seq<PipeState>,
                               birds': seq<BirdState>, nets': seq<nat>, gen': seq<nat>, fitness': seq<int>,
                               last: BirdState) {
    |gen| == |birds| &&
    birds' == Pick(birds, CollisionMask(birds, collides, ps), true) &&
    gen' == Pick(gen, CollisionMask(birds, collides, ps), true) &&
    nets' == gen' &&
    Penalised(fitness, gen, fitness', gen', -COLLISION_PENALTY) &&
    (forall x :: x in gen' ==> x in gen) &&
    (forall k :: 0 <= k < |gen'| ==> gen'[k] < |fitness'|) &&
    Distinct(gen') &&
    (forall k :: 0 <= k < |birds'| ==> birds'[k].x == START_X) &&
    last.x == START_X
  }

  /** The pipes after the first `j` iterations of the pipe loop: those
      moved and marked, their removal decided, and `addPipe` telling
      whether one of them was passed. */
  ghost predicate PipesScanned(pipes: seq<PipeState>, j: nat, pipes': seq<PipeState>, keep: seq<bool>, addPipe: bool) {
    j <= |pipes| && |pipes'| == |pipes| &&
    (forall k :: 0 <= k < j ==> pipes'[k] == Marked(MovedPipe(pipes[k]), START_X)) &&
    (forall k :: j <= k < |pipes| ==> pipes'[k] == pipes[k]) &&
    |keep| == j &&
    (forall k :: 0 <= k < j ==> keep[k] == !Gone(MovedPipe(pipes[k]))) &&
    (addPipe <==> exists k :: 0 <= k < j && !pipes[k].passed && MovedPipe(pipes[k]).x < START_X)
  }

  /** The collision pass of one more pipe `p`, given the lists `Sweep`
      returns for it. */
  lemma {:induction false} ListsStep(birds: seq<BirdState>, gen: seq<nat>, fitness: seq<int>,
                                     collides: Collision, pipes: seq<PipeState>, j: nat,
                                     birds': seq<BirdState>, nets': seq<nat>, gen': seq<nat>, fitness': seq<int>, last: BirdState,
                                     birds'': seq<BirdState>, nets'': seq<nat>, gen'': seq<nat>, fitness'': seq<int>, last': BirdState)
    requires Distinct(gen) && j < |pipes|
    requires ListsScanned(birds, gen, fitness, collides, pipes[..j], birds', nets', gen', fitness', last)
    requires var m := SweepMask(birds', HitBy(collides, MovedPipe(pipes[j])));
             birds'' == Pick(birds', m, true) && nets'' == Pick(nets', m, true) && gen'' == Pick(gen', m, true) &&
             fitness'' == Adjust(fitness', Pick(gen', m, false), -COLLISION_PENALTY) &&
             last' == LastVisitedFrom(birds', HitBy(collides, MovedPipe(pipes[j])), 0, last)
    ensures ListsScanned(birds, gen, fitness, collides, pipes[..j + 1], birds'', nets'', gen'', fitness'', last')
  {
    var a := CollisionMask(birds, collides, pipes[..j]);
    var out := HitBy(collides, MovedPipe(pipes[j]));
    var m := SweepMask(birds', out);
    assert CollisionMask(birds, collides, pipes[..j + 1]) == Compose(a, m) by {
      assert pipes[..j + 1][..j] == pipes[..j];
      assert pipes[..j + 1][j] == pipes[j];
    }
    PickCompose(birds, a, m);
    PickCompose(gen, a, m);
    SweepPenalised(fitness', gen', m, -COLLISION_PENALTY);
    forall x | x in gen''
      ensures x in gen'
    {
      PickMember(gen', m, true, x);
    }
    PenalisedTrans(fitness, gen, fitness', gen', fitness'', gen'', -COLLISION_PENALTY);
    PickDistinct(gen', m, true);
    forall k | 0 <= k < |gen''|
      ensures gen''[k] < |fitness''|
    {
      assert gen''[k] in gen';
    }
    forall k | 0 <= k < |birds''|
      ensures birds''[k].x == START_X
    {
      PickMember(birds', m, true, birds''[k]);
    }
  }

  /** Moving and marking pipe `j`, relative to the loop variable's `x`. */
  lemma {:induction false} PipesStep(pipes: seq<PipeState>, j: nat, pipes': seq<PipeState>, keep: seq<bool>,
                                     addPipe: bool, birdX: int)
    requires j < |pipes| && PipesScanned(pipes, j, pipes', keep, addPipe) && birdX == START_X
    ensures var p := MovedPipe(pipes'[j]);
            PipesScanned(pipes, j + 1, pipes'[j := Marked(p, birdX)], keep + [!Gone(p)],
                         addPipe || (!p.passed && p.x < birdX))
  {
  }

  /** One iteration of the pipe loop: pipe `j` moves, the birds it hits
      are removed (the loop over `birds` that pops while iterating), it is
      put on the removal list once off screen, and it is marked as passed
      once left of the loop variable `bird`. */
  method ScanPipe(ghost birds: seq<BirdState>, ghost gen: seq<nat>, ghost fitness: seq<int>,
                  ghost pipes: seq<PipeState>, collides: Collision, j: nat,
                  birds': seq<BirdState>, nets': seq<nat>, gen': seq<nat>, fitness': seq<int>,
                  pipes': seq<PipeState>, keep: seq<bool>, addPipe: bool, last: BirdState)
    returns (birds'': seq<BirdState>, nets'': seq<nat>, gen'': seq<nat>, fitness'': seq<int>,
             pipes'': seq<PipeState>, keep': seq<bool>, addPipe': bool, last': BirdState)
    requires Distinct(gen) && j < |pipes|
    requires ListsScanned(birds, gen, fitness, collides, pipes[..j], birds', nets', gen', fitness', last)
    requires PipesScanned(pipes, j, pipes', keep, addPipe)
    ensures ListsScanned(birds, gen, fitness, collides, pipes[..j + 1], birds'', nets'', gen'', fitness'', last')
    ensures PipesScanned(pipes, j + 1, pipes'', keep', addPipe')
  {
    var p := MovedPipe(pipes'[j]);
    birds'', nets'', gen'', fitness'', last' := Sweep(birds', nets', gen', fitness', HitBy(collides, p), -COLLISION_PENALTY, last);
    ListsStep(birds, gen, fitness, collides, pipes, j, birds', nets', gen', fitness', last,
              birds'', nets'', gen'', fitness'', last');
    PipesStep(pipes, j, pipes', keep, addPipe, last'.x);
    keep' := keep + [!Gone(p)];
    addPipe' := addPipe;
    if !p.passed && p.x < last'.x {
      p := p.(passed := true);
      addPipe' := true;
    }
    pipes'' := pipes'[j := p];
  }

  /** The pipe loop of a tick over all pipes, from the loop variable
      `bird` that the first loop left. */
  method CheckPipes(birds: seq<BirdState>, nets: seq<nat>, gen: seq<nat>, fitness: seq<int>,
                    pipes: seq<PipeState>, collides: Collision, last: BirdState)
    returns (birds': seq<BirdState>, nets': seq<nat>, gen': seq<nat>, fitness': seq<int>,
             pipes': seq<PipeState>, keep: seq<bool>, addPipe: bool, last': BirdState)
    requires |gen| == |birds| && nets == gen && Distinct(gen)
    requires forall k :: 0 <= k < |gen| ==> gen[k] < |fitness|
    requires forall k :: 0 <= k < |birds| ==> birds[k].x == START_X
    requires last.x == START_X
    ensures birds' == Pick(birds, CollisionMask(birds, collides, pipes), true)
    ensures gen' == Pick(gen, CollisionMask(birds, collides, pipes), true) && nets' == gen'
    ensures Penalised(fitness, gen, fitness', gen', -COLLISION_PENALTY)
    ensures Distinct(gen') && (forall x :: x in gen' ==> x in gen)
    ensures forall k :: 0 <= k < |gen'| ==> gen'[k] < |fitness'|
    ensures forall k :: 0 <= k < |birds'| ==> birds'[k].x == START_X
    ensures last'.x == START_X
    ensures pipes' == MarkedPipes(pipes) && keep == KeptMask(pipes)
    ensures addPipe <==> Passes(pipes)
  {
    birds', nets', gen', fitness', last' := birds, nets, gen, fitness, last;
    pipes', keep, addPipe := pipes, [], false;
    ScanStart(birds, gen, fitness, collides, pipes, last);
    var j := 0;
    while j < |pipes|
      invariant PipesScanned(pipes, j, pipes', keep, addPipe)
      invariant ListsScanned(birds, gen, fitness, collides, pipes[..j], birds', nets', gen', fitness', last')
    {
      birds', nets', gen', fitness', pipes', keep, addPipe, last' :=
        ScanPipe(birds, gen, fitness, pipes, collides, j, birds', nets', gen', fitness', pipes', keep, addPipe, last');
      j := j + 1;
    }
    ScanEnd(birds, gen, fitness, collides, pipes, birds', nets', gen', fitness', last', pipes', keep, addPipe);
  }

  /** Before the pipe loop nothing is removed, moved or decided. */
  lemma {:induction false} ScanStart(birds: seq<BirdState>, gen: seq<nat>, fitness: seq<int>,
                                     collides: Collision, pipes: seq<PipeState>, last: BirdState)
    requires |gen| == |birds| && Distinct(gen)
    requires forall k :: 0 <= k < |gen| ==> gen[k] < |fitness|
    requires forall k :: 0 <= k < |birds| ==> birds[k].x == START_X
    requires last.x == START_X
    ensures PipesScanned(pipes, 0, pipes, [], false)
    ensures ListsScanned(birds, gen, fitness, collides, pipes[..0], birds, gen, gen, fitness, last)
  {
    assert pipes[..0] == [];
    PickAll(birds, |birds|);
    PickAll(gen, |gen|);
    assert birds[..|birds|] == birds && gen[..|gen|] == gen;
  }

  /** After the pipe loop every pipe is scanned. */
  lemma {:induction false} ScanEnd(birds: seq<BirdState>, gen: seq<nat>, fitness: seq<int>,
                                   collides: Collision, pipes: seq<PipeState>,
                                   birds': seq<BirdState>, nets': seq<nat>, gen': seq<nat>, fitness': seq<int>,
                                   last: BirdState, pipes': seq<PipeState>, keep: seq<bool>, addPipe: bool)
    requires PipesScanned(pipes, |pipes|, pipes', keep, addPipe)
    requires ListsScanned(birds, gen, fitness, collides, pipes[..|pipes|], birds', nets', gen', fitness', last)
    ensures ListsScanned(birds, gen, fitness, collides, pipes, birds', nets', gen', fitness', last)
    ensures pipes' == MarkedPipes(pipes) && keep == KeptMask(pipes)
    ensures addPipe <==> Passes(pipes)
  {
    assert pipes[..|pipes|] == pipes;
  }

  /** The fitness of every genome after a tick: the tick reward for every
      genome that was in the game, the collision penalty for those the pipe
      loop removed, and the pass reward for those it left when a pipe was
      passed.  The ground pass charges nothing. */
  lemma {:induction false} TickFitness(f0: seq<int>, gen: seq<nat>, f1: seq<int>, f2: seq<int>, gen2: seq<nat>,
                                       f3: seq<int>, add: bool, g: nat)
    requires Distinct(gen) && Distinct(gen2) && g < |f0|
    requires f1 == Adjust(f0, gen, TICK_REWARD)
    requires Penalised(f1, gen, f2, gen2, -COLLISION_PENALTY)
    requires f3 == if add then Adjust(f2, gen2, PASS_REWARD) else f2
    ensures |f3| == |f0|
    ensures f3[g] == f0[g] + (if g in gen then TICK_REWARD else 0)
                          - (if g in gen && g !in gen2 then COLLISION_PENALTY else 0)
                          + (if add && g in gen2 then PASS_REWARD else 0)
  {
    AdjustDistinct(f0, gen, TICK_REWARD, g);
    if add {
      AdjustDistinct(f2, gen2, PASS_REWARD, g);
    }
  }

  /** Appending the new pipe before removing the old ones. */
  lemma {:induction false} AppendThenPrune(pipes: seq<PipeState>, keep: seq<bool>, q: PipeState)
    requires |keep| == |pipes|
    ensures Pick(pipes + [q], keep + [true], true) == Pick(pipes, keep, true) + [q]
  {
    PickStep(pipes + [q], keep, true, true);
    PickPrefix(pipes, [q], keep, true);
  }

  /** The end of a tick after the pipe loop: a passed pipe raises the
      score, rewards every genome still in the game and appends a new
      pipe; the pipes on the removal list go; then the ground pass removes
      every bird at the ground or above the sky (popping while iterating,
      like the collision passes, and charging nothing). */
  method Finish(birds: seq<BirdState>, nets: seq<nat>, gen: seq<nat>, fitness: seq<int>,
                pipes: seq<PipeState>, keep: seq<bool>, addPipe: bool, last: BirdState, score: nat, draw: int)
    returns (birds': seq<BirdState>, nets': seq<nat>, gen': seq<nat>, fitness': seq<int>,
             pipes': seq<PipeState>, score': nat)
    requires |gen| == |birds| && nets == gen && Distinct(gen)
    requires forall k :: 0 <= k < |gen| ==> gen[k] < |fitness|
    requires forall k :: 0 <= k < |birds| ==> birds[k].x == START_X
    requires |keep| == |pipes| && Drawable(draw)
    ensures score' == if addPipe then score + 1 else score
    ensures fitness' == if addPipe then Adjust(fitness, gen, PASS_REWARD) else fitness
    ensures pipes' == Pick(pipes, keep, true) + (if addPipe then [NewPipe(WIN_WIDTH, draw)] else [])
    ensures birds' == Pick(birds, SweepMask(birds, OutOfBounds), true)
    ensures gen' == Pick(gen, SweepMask(birds, OutOfBounds), true) && nets' == gen'
    ensures Distinct(gen') && forall k :: 0 <= k < |gen'| ==> gen'[k] < |fitness'|
    ensures forall x :: x in gen' ==> x in gen
    ensures forall k :: 0 <= k < |birds'| ==> birds'[k].x == START_X
  {
    var fitness2, pipes2, keep2 := fitness, pipes, keep;
    score' := score;
    if addPipe {
      score' := score' + 1;
      fitness2 := Reward(gen, fitness);
      pipes2 := pipes + [NewPipe(WIN_WIDTH, draw)];
      AppendThenPrune(pipes, keep, NewPipe(WIN_WIDTH, draw));
      keep2 := keep + [true];
    }
    pipes' := Prune(pipes2, keep2);
    var last';
    birds', nets', gen', fitness', last' := Sweep(birds, nets, gen, fitness2, OutOfBounds, 0, last);
    ghost var gm := SweepMask(birds, OutOfBounds);
    AdjustZero(fitness2, Pick(gen, gm, false));
    PickDistinct(gen, gm, true);
    forall k | 0 <= k < |gen'|
      ensures gen'[k] < |fitness'|
    {
      PickMember(gen, gm, true, gen'[k]);
    }
    forall x | x in gen'
      ensures x in gen
    {
      PickMember(gen, gm, true, x);
    }
    forall k | 0 <= k < |birds'|
      ensures birds'[k].x == START_X
    {
      PickMember(birds, gm, true, birds'[k]);
    }
  }

  /** One pass of the game loop of `main`, from the `pipe_index` choice to
      the score test; `draw` is the height `random.randrange` gives a pipe
      created in this tick.  `stop` is true when the loop exits: at once
      when no bird is left, and after the tick once the score exceeds 30. */
  method Tick(s: State, act: Activation, collides: Collision, draw: int) returns (r: State, stop: bool)
    requires Valid(s) && Drawable(draw)
    ensures Valid(r)
    ensures stop <==> |s.birds| == 0 || r.score > SCORE_LIMIT
    ensures |s.birds| == 0 ==> r == s
    ensures r.score == s.score || r.score == s.score + 1
    ensures |r.fitness| == |s.fitness|
    ensures forall x :: x in r.gen ==> x in s.gen
    ensures |s.birds| > 0 ==> (r.score == s.score + 1 <==> Passes(s.pipes))
    ensures |s.birds| > 0 ==> r.pipes == NextPipes(s.pipes, draw)
    ensures |s.birds| > 0 ==>
              var flying := Pick(Aloft(s, act), Survivors(s, act, collides), true);
              r.birds == Pick(flying, SweepMask(flying, OutOfBounds), true) &&
              r.gen == Pick(Pick(s.gen, Survivors(s, act, collides), true), SweepMask(flying, OutOfBounds), true)
    ensures |s.birds| > 0 ==>
              var left := Pick(s.gen, Survivors(s, act, collides), true);
              forall g :: 0 <= g < |s.fitness| ==>
                r.fitness[g] == s.fitness[g] + (if g in s.gen then TICK_REWARD else 0)
                                - (if g in s.gen && g !in left then COLLISION_PENALTY else 0)
                                + (if Passes(s.pipes) && g in left then PASS_REWARD else 0)
  {
    if |s.birds| == 0 {
      return s, true;
    }
    var pipeIndex := PipeIndex(s.birds, s.pipes);
    var birds1, fitness1, last := ThinkAll(s.birds, s.nets, s.gen, s.fitness, s.pipes[pipeIndex], act);
    assert birds1 == Aloft(s, act);
    var birds2, nets2, gen2, fitness2, pipes2, keep, addPipe, last2 :=
      CheckPipes(birds1, s.nets, s.gen, fitness1, s.pipes, collides, last);
    var birds5, nets5, gen5, fitness5, pipes5, score :=
      Finish(birds2, nets2, gen2, fitness2, pipes2, keep, addPipe, last2, s.score, draw);
    NextPipesValid(s.pipes, draw);
    forall g | 0 <= g < |s.fitness|
      ensures fitness5[g] == s.fitness[g] + (if g in s.gen then TICK_REWARD else 0)
                             - (if g in s.gen && g !in gen2 then COLLISION_PENALTY else 0)
                             + (if addPipe && g in gen2 then PASS_REWARD else 0)
    {
      TickFitness(s.fitness, s.gen, fitness1, fitness2, gen2, fitness5, addPipe, g);
    }
    r := State(birds5, nets5, gen5, fitness5, pipes5, score);
    stop := score > SCORE_LIMIT;
  }
}
