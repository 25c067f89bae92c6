# Flappy Bird with NEAT: a verified model of the game logic

`flappy_bird.py` trains a population of NEAT networks to play Flappy Bird.
Each generation, `main` builds one bird per genome and runs the game loop.
Every tick of that loop moves and flaps the birds, scrolls the pipes and the
ground, removes the birds that crash, scores passed pipes and keeps each
genome's fitness. This project models that logic in Dafny and proves what
it does:

- `Kinematics` (`bird.dfy`): the `Bird` class. Jump, move (displacement,
  cap and tilt) and the flap counter of `draw`, as a class whose methods are
  proved against pure functions on a `BirdState` value.
- `Pipes` (`pipe.dfy`) and `Ground` (`base.dfy`): the `Pipe` class
  (`set_height`, `move`) and the scrolling `Base`.
- `Lists` (`lists.dfy`): keep/drop masks over the parallel lists `birds`,
  `nets` and `gen`. Applying one mask to all three lists is how the model
  expresses that the lists stay index-aligned.
- `Removal` (`removal.dfy`): the Python loop that pops birds from the list
  it is iterating over. It is modelled literally, including the bird after
  each removed one being skipped in that pass and the value the loop
  variable `bird` is left holding.
- `Simulation` (`simulation.dfy`): the game state between ticks, the
  validity invariant, the `pipe_index` choice, the collision passes and the
  pipe-list rules, as specification functions.
- `GameLoop` (`gameloop.dfy`): one tick of `main` (lines 267-321). Each
  loop of the tick is a method with loop invariants, proved against the
  functions of `Simulation`.
- `Generation` (`generation.dfy`): the set-up of a generation and the
  `while run` loop of `main`. It is proved to terminate, and to end only
  when no bird is left or the score is above 30.

Fitness is kept as an integer in tenths, in a table indexed by genome id:
+1 per tick alive (`+= 0.1`), -10 per collision (`-= 1`) and +50 per passed
pipe (`+= 5`). A network is named by the id of the genome it was built
from. The validity invariant `Simulation.Valid` requires `nets == gen`.

## Model

| member | source | states |
|---|---|---|
| Kinematics.Bird.constructor | flappy_bird.py:31-39 | a new bird is level, at rest, with its jump height at its start height and flap counter and frame 0 |
| Kinematics.NewBird | flappy_bird.py:31-39 | the state `__init__` gives a bird at (x, y): level, at rest, tick counter 0, jump height y, flap counter and frame 0 |
| Kinematics.Bird.Jump | flappy_bird.py:46-49 | velocity becomes -10.5, the tick counter 0 and the jump height the current y; nothing else changes |
| Kinematics.Jumped | flappy_bird.py:46-49 | a jump sets velocity -10.5, the tick counter 0 and the jump height to y, and changes no other field |
| Kinematics.Bird.Move | flappy_bird.py:53-82 | the tick counter rises by exactly 1; y moves by the displacement of the new tick, which is at most 16; a tilt in range stays in range; the new state is `Moved` of the old |
| Kinematics.Bird.Draw | flappy_bird.py:86-103 | a flap counter in 0..20 stays in 0..20; at tilt <= -80 the frame is 1 and the counter 10; the new state is `Animated` of the old |
| Kinematics.Displacement | flappy_bird.py:65-72 | the applied displacement is never above 16; it is negative exactly when v*t + 1.5*t^2 is, and is then that value minus 2; otherwise it is min(v*t + 1.5*t^2, 16) |
| Kinematics.NextTilt | flappy_bird.py:77-82 | a rising bird snaps to 25; a falling one turns down by exactly 20 while above -90 and keeps its tilt otherwise; the range (-110, 25] is preserved |
| Kinematics.Moved | flappy_bird.py:53-82 | a move raises the tick counter by 1, adds the displacement to y, and keeps x, velocity, jump height and the animation fields |
| Kinematics.Animated | flappy_bird.py:87-103 | the counter stays in 0..20, the frame in 0..2, a diving bird shows frame 1 with counter 10, and only counter and frame change |
| Kinematics.JumpThenMove | flappy_bird.py:46-82 | a jump followed by one move lifts the bird by exactly 11 and points it 25 up |
| Kinematics.DisplacementCapped | flappy_bird.py:65-69 | from the ninth tick after a jump the bird falls at the capped 16 per tick |
| Kinematics.RestDisplacement | flappy_bird.py:65-72 | with velocity 0 the displacements are 1.5, 6, 13.5 and then 16 |
| Kinematics.FreeFall | flappy_bird.py:53-74 | a bird that never jumps from rest is at y+1.5, y+7.5, y+21 and then 16 lower per tick, with x and jump height unchanged |
| Kinematics.FlightTilt | flappy_bird.py:77-82 | over any run of ticks and any jump decisions, a bird that starts level never tilts above 25 and never reaches -110 |
| Kinematics.FallPastTurnLimit | flappy_bird.py:77-82 | a bird dropped from rest is at tilt -95, below -90, after its tenth move and after every later move |
| Kinematics.FallTilt | flappy_bird.py:77-82 | every move n of a bird dropped from rest turns its tilt as a rising bird (snap to 25) exactly for the first four moves, while it is within 50 of its start, and as a falling one for every later move |
| Kinematics.FlapSchedule | flappy_bird.py:87-96 | over twenty draws the counter counts them and the frame follows 0, 1, 2, 1 in blocks of five |
| Kinematics.FlapCycle | flappy_bird.py:87-99 | the 21st draw restores the counter and frame to 0: the animation has period 21 |
| Pipes.NewPipe | flappy_bird.py:122-140 | a new pipe is at x, unpassed, with height the random draw in [50, 450), top = height - 640, bottom = height + 200 |
| Pipes.MovedPipe | flappy_bird.py:144-145 | a move decreases x by exactly 5 and changes nothing else |
| Pipes.Pipe.constructor | flappy_bird.py:122-133 | the constructed pipe's state is `NewPipe(x, draw)`; `gap` is 100 |
| Pipes.Pipe.SetHeight | flappy_bird.py:137-140 | 50 <= height < 450, bottom = height + 200, top = height - 640 |
| Pipes.Pipe.Move | flappy_bird.py:144-145 | x decreases by exactly 5; no other field changes |
| Ground.Scrolled | flappy_bird.py:187-196 | one move keeps the tiles exactly one image width apart and the window's left edge covered |
| Ground.AlwaysTiled | flappy_bird.py:180-196 | from offsets 0 and WIDTH, after any number of moves the tiles are WIDTH apart and the left one covers x = 0 |
| Ground.Tiled | flappy_bird.py:180-196 | the ground invariant: the tiles are one image apart and the left one covers the window's left edge (a predicate; `Scrolled` and `AlwaysTiled` state that it holds) |
| Ground.Base.constructor | flappy_bird.py:180-183 | the ground is at the given height, tiled, with its tiles at 0 and WIDTH |
| Ground.Base.Move | flappy_bird.py:187-196 | keeps the tiling invariant; the new offsets are `Scrolled` of the old |
| Removal.Sweep | flappy_bird.py:288-293 | the pop-while-iterating loop leaves, in all three lists, exactly the entries the pass mask keeps; the fitness of each removed genome changes by the pass's delta once; the loop variable ends as `LastVisitedFrom` |
| Removal.Visit | flappy_bird.py:289-293 | one iteration keeps the three lists tracking the original ones under the mask built so far, extends the mask by the visit, and advances the loop position by one unless the bird was popped |
| Removal.SweepFrom | flappy_bird.py:288-293 | the reference definition of a pass from index k on, one entry per remaining bird: an eliminated bird is dropped and the bird after it kept without a visit |
| Removal.SweepMask | flappy_bird.py:288-293 | the keep-mask of a whole pass, one entry per bird; `SweepMaskAt` states it entry by entry |
| Removal.LastVisitedFrom | flappy_bird.py:288-299 | the leftover loop variable: unchanged by a pass over no bird, otherwise one of the birds from index k on |
| Removal.LastVisitedIsLast | flappy_bird.py:288-299 | `EndsOnLast`: the leftover loop variable is the last bird, or the one before it when that one was eliminated and popped, so that the loop skipped the last |
| Removal.AdjustZero | flappy_bird.py:313-317 | a pass that charges nothing, as the ground and ceiling pass, leaves the fitness table unchanged |
| Removal.SweepMaskAt | flappy_bird.py:288-293 | entry by entry: a bird right after a removed one is kept without being looked at; any other bird is kept exactly when it is not eliminated |
| Removal.SweepDropsOnlyOut | flappy_bird.py:288-293 | only eliminated birds are ever removed |
| Removal.SweepExactWhenSpread | flappy_bird.py:313-317 | when no two neighbours are eliminated, exactly the eliminated birds are removed |
| Removal.SweepSkipsNeighbour | flappy_bird.py:313-317 | of two neighbouring birds that are both eliminated, the second survives the pass |
| Removal.AdjustDistinct | flappy_bird.py:305-306 | with distinct genome ids, adjusting the table changes exactly those genomes' entries, each once |
| Lists.PickCompose | flappy_bird.py:286-293 | two removal passes in a row leave what one pass with the composed mask leaves |
| Lists.PickDistinct | flappy_bird.py:291-293 | removing entries from a list of distinct genomes leaves them distinct |
| Simulation.PipeIndex | flappy_bird.py:267-270 | the chosen pipe index is a valid index of the pipe list |
| Simulation.PipeIndexFirstAhead | flappy_bird.py:267-270 | between ticks, the birds are completely past pipe j exactly when j is before `pipe_index`: index 1 only with two pipes and the first one behind the birds |
| Simulation.PipesValid | flappy_bird.py:284-310 | the pipe invariant between ticks: nonempty, every pipe shaped by `set_height` and on screen, all passed and behind the birds but the last, which is unpassed and ahead, and each pipe more than 270 right of every earlier one (a predicate; `NextPipesValid` proves a tick keeps it) |
| Simulation.Valid | flappy_bird.py:233-317 | the state invariant between ticks: the three lists in step with distinct genomes of the table, every bird at x = 230, valid pipes (a predicate; `Setup` establishes it and `Tick` keeps it) |
| Simulation.Thought | flappy_bird.py:277-282 | a bird's turn is a move, followed by a jump or not; x is unchanged |
| Simulation.ThoughtsOf | flappy_bird.py:275-282 | bird k after the first loop is bird k's turn with network k |
| Simulation.Aloft | flappy_bird.py:275-282 | the birds after the first loop of a tick, one per bird, each having taken its turn against the pipe at `pipe_index` |
| Simulation.Survivors | flappy_bird.py:284-293 | the keep-mask of the collision passes over the birds after the first loop, one entry per bird |
| Simulation.CollisionDropped | flappy_bird.py:286-293 | a bird the collision passes remove was hit by one of the moved pipes |
| Simulation.UntouchedSurvives | flappy_bird.py:286-293 | a bird no moved pipe hits survives every collision pass |
| Simulation.CollisionMask | flappy_bird.py:286-293 | the birds kept by the collision passes, one per pipe in list order, each over what the previous left; one entry per bird; `CollisionDropped` and `UntouchedSurvives` state which are kept |
| Simulation.OutOfBounds | flappy_bird.py:314 | the ground and ceiling test: the image bottom, less 10, at or below 730, or y above -50 (a predicate) |
| Simulation.GroundAfter24Moves | flappy_bird.py:313-314 | a bird that never jumps from (230, 350) passes the ground test after each of its first 23 moves, at y = 691 one pixel short, and fails it after the 24th, at y = 707 |
| Simulation.PassesLast | flappy_bird.py:299-301 | between ticks, a tick passes a pipe exactly when the last pipe, moved, lies left of the birds |
| Simulation.Passes | flappy_bird.py:299-301 | whether a tick sets `add_pipe`: some unpassed pipe, once moved, is left of the birds (a predicate; `PassesLast` characterises it) |
| Simulation.Marked | flappy_bird.py:299-300 | marking only sets `passed`, and sets it exactly for a pipe left of the bird |
| Simulation.MarkedPipes | flappy_bird.py:286-301 | pipe k after the pipe loop is pipe k moved and marked |
| Simulation.KeptMask | flappy_bird.py:296-297 | the pipe loop removes exactly the pipes whose moved right edge is left of the window |
| Simulation.Gone | flappy_bird.py:296 | a pipe whose right edge is left of the window goes on the removal list (a predicate) |
| Simulation.NextPipes | flappy_bird.py:296-310 | the pipe list after a tick: the kept, moved and marked pipes, then a new pipe at 500 when one was passed; `NextPipesValid` states its properties |
| Simulation.NextPipesValid | flappy_bird.py:286-310 | a tick keeps the pipe list valid (nonempty, spread, all passed but the last); its last pipe is a new one at x = 500 when a pipe was passed, else the old last pipe five further left |
| GameLoop.ThinkAll | flappy_bird.py:275-282 | every bird takes its turn with its own network, every genome earns the tick reward once, and the loop variable ends on the last bird |
| GameLoop.Reward | flappy_bird.py:305-306 | every genome still in the game earns the pass reward once |
| GameLoop.Prune | flappy_bird.py:309-310 | the pipes on the removal list leave the list; the others keep their order |
| GameLoop.SweepPenalised | flappy_bird.py:288-293 | a removal pass charges exactly the genomes it removes, each once |
| GameLoop.PenalisedTrans | flappy_bird.py:286-293 | two removal passes in a row charge what they remove together |
| GameLoop.ScanPipe | flappy_bird.py:286-301 | one iteration of the pipe loop extends both loop invariants by one pipe: the collision pass over it, and its move, mark and removal decision |
| GameLoop.CheckPipes | flappy_bird.py:284-301 | after the pipe loop, the birds and genomes are what the collision passes keep, in step; removed genomes are charged 10; the pipes are moved and marked; the removal list and `add_pipe` are as `KeptMask` and `Passes` say |
| GameLoop.TickFitness | flappy_bird.py:276-306 | a genome's fitness after a tick: +1 if it was in the game, -10 if a pipe removed it, +50 if a pipe was passed and it survived the pipes |
| GameLoop.AppendThenPrune | flappy_bird.py:307-310 | appending the new pipe before the removals leaves it last |
| GameLoop.Finish | flappy_bird.py:303-317 | score, reward and new pipe when a pipe was passed; the removal of listed pipes; the ground and ceiling pass, which charges nothing |
| GameLoop.Tick | flappy_bird.py:267-321 | one tick keeps the state valid (lists in step, distinct genomes, valid pipes); it stops exactly when no bird is left or the score is above 30; the score rises by at most 1, and by 1 exactly when a pipe is passed; the new pipes, birds, genomes and fitness are as the specification functions say |
| Generation.Setup | flappy_bird.py:233-251 | one network, a reset fitness and a bird at (230, 350) per genome, in order; one pipe at x = 600; score 0; other genomes' fitness untouched |
| Generation.AnimateAll | flappy_bird.py:208-209 | every bird is drawn once: bird k becomes `Animated` of bird k |
| Generation.TickProgress | flappy_bird.py:294-321 | a tick that does not end the game either moves the last pipe 5 left or raises the score, so the game gets closer to its end |
| Generation.AnimatedValid | flappy_bird.py:208-209 | drawing the birds keeps the state valid |
| Generation.Played | flappy_bird.py:267-324 | the result of a pass over a game with birds: the next pipes, the genomes left after the collision and ground passes, their birds drawn once more unless the game stopped, and each genome's fitness +1 in the game, -10 if a pipe removed it, +50 if a pipe was passed and it survived the pipes (a predicate) |
| Generation.Round | flappy_bird.py:254-324 | one pass of the game loop keeps the state valid, stops exactly when no bird is left or the score is above 30, and otherwise decreases the progress measure; it leaves the fitness of genomes not in the game alone and, with birds, produces what `Played` says |
| Generation.RunGeneration | flappy_bird.py:230-324 | a generation always ends, and only with no bird left or the score above 30 (at most 31); only this generation's genomes remain; the fitness of every genome outside the generation is untouched; the ground has moved once per pass that did not end the game |

## Left out

- Rendering is left out. This covers image loading and scaling, `rotate`, the blits, the fonts and `draw_window`'s text. Only the bird frame counter of `draw` is modelled.
- Image sizes are constants: the pipe is 104 by 640 and the bird 48 high, the doubled assets. The ground width is a parameter `baseWidth > 5`.
- `Pipe.collide` is a parameter `collides(pipe, bird)`. The game's pixel-mask overlap test is pygame code.
- NEAT is a parameter. Network activation is an oracle `act(net, y, dTop, dBottom)` whose result is compared with 0.5. Network creation is naming the network by its genome id. `Population.run` and the configuration are not modelled.
- `random.randrange(50, 450)` is a parameter constrained to [50, 450). A generation takes one draw per pipe it creates.
- Event polling, `pygame.quit()`, `quit()` and `clock.tick(30)` are not modelled; they are I/O and real-time pacing. The window-close exit of the loop is therefore absent.
- The global `gene` counter is not modelled; it is display-only.
- Fitness is kept in integer tenths, not as floating point.
- `birds.index(bird)` and `pipes.remove(r)` find objects by identity. The model identifies them by position, which is the same because no object is in a list twice.
- `Simulation.Aloft` and the other tick-level functions work on bird and pipe values, not objects. The methods of the `Bird` and `Pipe` classes are proved against the same functions, but aliasing between the lists and the objects is not modelled.
- Generation.RunGeneration: states the fitness of genomes outside the generation, and tick by tick through `Round` and `Played`, but gives no closed form for the fitness a whole generation hands back, since that depends on every network decision of the run.
- `Generation.Round`: does not move the ground itself. `RunGeneration` does that after it, which is equivalent because the ground and the birds do not interact.
