/** Removing birds while iterating over them.  Both elimination loops of
    the game (collision with a pipe, and leaving the screen) iterate over
    the bird list with a Python `for` and pop each eliminated bird from the
    bird, network and genome lists inside the loop.  The list iterator then
    moves on to the next index, so the bird that slid into the removed
    bird's place is skipped in that pass: it survives without being looked
    at.  This module models that loop exactly and characterises its result. */
module Removal {
  import opened Lists

  /** The keep-mask of one pass, from the visit at index `k` of the
      original list on: a visited bird that is `out` is dropped and the one
      after it is kept unvisited. */
  function SweepFrom<B>(bs: seq<B>, out: B -> bool, k: nat): (m: seq<bool>)
    requires k <= |bs|
    ensures |m| == |bs| - k
    decreases |bs| - k
  {
    if k == |bs| then []
    else if out(bs[k]) then
      (if k + 1 < |bs| then [false, true] + SweepFrom(bs, out, k + 2) else [false])
    else [true] + SweepFrom(bs, out, k + 1)
  }

  /** The keep-mask of a whole pass over `bs`. */
  function SweepMask<B>(bs: seq<B>, out: B -> bool): (m: seq<bool>)
    ensures |m| == |bs|
  {
    SweepFrom(bs, out, 0)
  }

  /** The value the loop variable holds after the pass, from the visit at `k`
      on; `prev` is its value before (the pass leaves it alone when the list
      is empty). */
  function LastVisitedFrom<B>(bs: seq<B>, out: B -> bool, k: nat, prev: B): (r: B)
    requires k <= |bs|
    ensures k == |bs| ==> r == prev
    ensures k < |bs| ==> r in bs[k..]
    decreases |bs| - k
  {
    if k == |bs| then prev
    else if out(bs[k]) && k + 1 < |bs| then LastVisitedFrom(bs, out, k + 2, bs[k])
    else if out(bs[k]) then bs[k]
    else LastVisitedFrom(bs, out, k + 1, bs[k])
  }

  /** The loop variable `r` after the pass from `k` on is the last bird, or
      the one before it when that one was eliminated and popped, which makes
      the loop skip the last bird. */
  ghost predicate EndsOnLast<B>(bs: seq<B>, out: B -> bool, k: nat, r: B)
    requires k < |bs|
  {
    r == bs[|bs| - 1] ||
    (k <= |bs| - 2 && r == bs[|bs| - 2] && out(bs[|bs| - 2]) && !SweepFrom(bs, out, k)[|bs| - 2 - k])
  }

  /** The loop variable ends on the last bird unless the loop skipped it. */
  lemma {:induction false} LastVisitedIsLast<B>(bs: seq<B>, out: B -> bool, k: nat, prev: B)
    requires k < |bs|
    ensures EndsOnLast(bs, out, k, LastVisitedFrom(bs, out, k, prev))
    decreases |bs| - k, 1
  {
    if out(bs[k]) && k + 2 < |bs| {
      LastAfterDrop(bs, out, k, prev);
    } else if !out(bs[k]) && k + 1 < |bs| {
      LastAfterKeep(bs, out, k, prev);
    }
  }

  lemma {:induction false} LastAfterDrop<B>(bs: seq<B>, out: B -> bool, k: nat, prev: B)
    requires k + 2 < |bs| && out(bs[k])
    ensures EndsOnLast(bs, out, k, LastVisitedFrom(bs, out, k, prev))
    decreases |bs| - k, 0
  {
    LastVisitedIsLast(bs, out, k + 2, bs[k]);
    var n := |bs|;
    if k + 2 <= n - 2 {
      assert SweepFrom(bs, out, k)[n - 2 - k] == SweepFrom(bs, out, k + 2)[n - 2 - (k + 2)];
    }
  }

  lemma {:induction false} LastAfterKeep<B>(bs: seq<B>, out: B -> bool, k: nat, prev: B)
    requires k + 1 < |bs| && !out(bs[k])
    ensures EndsOnLast(bs, out, k, LastVisitedFrom(bs, out, k, prev))
    decreases |bs| - k, 0
  {
    LastVisitedIsLast(bs, out, k + 1, bs[k]);
    var n := |bs|;
    if k + 1 <= n - 2 {
      assert SweepFrom(bs, out, k)[n - 2 - k] == SweepFrom(bs, out, k + 1)[n - 2 - (k + 1)];
    }
  }

  /** The mask, entry by entry: an entry right after a dropped one is kept
      unvisited; every other entry was visited and is kept exactly when it
      is not `out`. */
  lemma {:induction false} SweepFromAt<B>(bs: seq<B>, out: B -> bool, k: nat, j: nat)
    requires k <= j < |bs|
    ensures SweepFrom(bs, out, k)[j - k] ==
            (if j > k && !SweepFrom(bs, out, k)[j - k - 1] then true else !out(bs[j]))
    decreases |bs| - k
  {
    if j > k {
      if out(bs[k]) && k + 1 < |bs| {
        if j >= k + 2 {
          SweepFromAt(bs, out, k + 2, j);
        }
      } else if !out(bs[k]) {
        SweepFromAt(bs, out, k + 1, j);
      }
    }
  }

  lemma {:induction false} SweepMaskAt<B>(bs: seq<B>, out: B -> bool, j: nat)
    requires j < |bs|
    ensures |SweepMask(bs, out)| == |bs|
    ensures SweepMask(bs, out)[j] ==
            (if j > 0 && !SweepMask(bs, out)[j - 1] then true else !out(bs[j]))
  {
    SweepFromAt(bs, out, 0, j);
  }

  /** Only birds that are `out` are ever dropped. */
  lemma {:induction false} SweepDropsOnlyOut<B>(bs: seq<B>, out: B -> bool, x: B)
    requires x in Pick(bs, SweepMask(bs, out), false)
    ensures out(x)
  {
    var m := SweepMask(bs, out);
    var i :| 0 <= i < |Pick(bs, m, false)| && Pick(bs, m, false)[i] == x;
    PickIndex(bs, m, false, i);
    var j :| 0 <= j < |m| && !m[j] && bs[j] == x;
    SweepMaskAt(bs, out, j);
  }

  /** When no two neighbours are `out`, the skipping is invisible: exactly
      the birds that are `out` are dropped. */
  lemma {:induction false} SweepExactWhenSpread<B>(bs: seq<B>, out: B -> bool, j: nat)
    requires forall i :: 0 < i < |bs| ==> !(out(bs[i - 1]) && out(bs[i]))
    requires j < |bs|
    ensures SweepMask(bs, out)[j] == !out(bs[j])
  {
    SweepMaskAt(bs, out, j);
    if j > 0 {
      SweepExactWhenSpread(bs, out, j - 1);
    }
  }

  /** Two neighbours that are both eliminated: the second one survives. */
  lemma {:induction false} SweepSkipsNeighbour<B>(a: B, b: B, out: B -> bool)
    requires out(a) && out(b)
    ensures Pick([a, b], SweepMask([a, b], out), true) == [b]
  {
    assert SweepMask([a, b], out) == [false, true];
    assert [a, b][..1] == [a];
  }

  /** One pass of the Python loop
        for bird in birds:
          if out(bird): fitness += delta; pop it from nets, gen, birds
      over the parallel lists.  `gen` holds genome ids, `fitness` the
      fitness of every genome (in tenths) by id, `last` the loop variable
      before the pass.  Returns the new lists, fitness and loop variable. */
  method Sweep<B>(birds: seq<B>, nets: seq<nat>, gen: seq<nat>, fitness: seq<int>,
                  out: B -> bool, delta: int, last: B)
    returns (birds': seq<B>, nets': seq<nat>, gen': seq<nat>, fitness': seq<int>, last': B)
    requires |nets| == |birds| && |gen| == |birds|
    requires forall k :: 0 <= k < |gen| ==> gen[k] < |fitness|
    ensures birds' == Pick(birds, SweepMask(birds, out), true)
    ensures nets' == Pick(nets, SweepMask(birds, out), true)
    ensures gen' == Pick(gen, SweepMask(birds, out), true)
    ensures fitness' == Adjust(fitness, Pick(gen, SweepMask(birds, out), false), delta)
    ensures last' == LastVisitedFrom(birds, out, 0, last)
  {
    birds', nets', gen', fitness', last' := birds, nets, gen, fitness, last;
    var i := 0;
    // the keep-mask of the visits so far, one entry per original bird
    ghost var m: seq<bool> := [];
    while i < |birds'|
      invariant Swept(birds, nets, gen, fitness, out, delta, last, m, birds', nets', gen', fitness', last')
      invariant i == Count(m, true) || (|m| == |birds| && i == Count(m, true) + 1)
      decreases |birds| - |m|
    {
      birds', nets', gen', fitness', last', m :=
        Visit(birds, nets, gen, fitness, out, delta, last, m, birds', nets', gen', fitness', last', i);
      i := i + 1;
    }
    SweptEnd(birds, nets, gen, fitness, out, delta, last, m, birds', nets', gen', fitness', last');
  }

  /** One iteration of the loop of `Sweep`: the visit of the entry at index
      `i` of the current lists. */
  method Visit<B>(ghost birds: seq<B>, ghost nets: seq<nat>, ghost gen: seq<nat>, ghost fitness: seq<int>,
                  out: B -> bool, delta: int, ghost last: B, ghost m: seq<bool>,
                  birds': seq<B>, nets': seq<nat>, gen': seq<nat>, fitness': seq<int>, cur: B, i: nat)
    returns (birds'': seq<B>, nets'': seq<nat>, gen'': seq<nat>, fitness'': seq<int>, last'': B, ghost m': seq<bool>)
    requires Swept(birds, nets, gen, fitness, out, delta, last, m, birds', nets', gen', fitness', cur)
    requires forall k :: 0 <= k < |gen| ==> gen[k] < |fitness|
    requires i == Count(m, true) && i < |birds'|
    ensures Swept(birds, nets, gen, fitness, out, delta, last, m', birds'', nets'', gen'', fitness'', last'')
    ensures |m| < |m'| <= |birds|
    ensures i + 1 == Count(m', true) || (|m'| == |birds| && i + 1 == Count(m', true) + 1)
  {
    SweptAt(birds, nets, gen, fitness, out, delta, last, m, birds', nets', gen', fitness', cur);
    last'' := birds'[i];
    if out(last'') {
      var g := gen'[i];
      fitness'' := fitness'[g := fitness'[g] + delta];
      nets'' := nets'[..i] + nets'[i + 1..];
      gen'' := gen'[..i] + gen'[i + 1..];
      birds'' := birds'[..i] + birds'[i + 1..];
      m' := Skip(m, |birds|);
      SweptDrop(birds, nets, gen, fitness, out, delta, last, m, birds', nets', gen', fitness', cur, i,
                m', birds'', nets'', gen'', fitness'', last'');
    } else {
      birds'', nets'', gen'', fitness'' := birds', nets', gen', fitness';
      m' := m + [true];
      SweptKeep(birds, nets, gen, fitness, out, delta, last, m, birds', nets', gen', fitness', cur, i, m', last'');
    }
  }

  /** The loop invariant of `Sweep`: after the visits that produced mask `m`,
      the lists hold what `m` kept followed by the unvisited entries, the
      fitness is charged for what `m` dropped, and the rest of the pass
      yields the whole pass's mask and final loop variable. */
  ghost predicate Swept<B>(birds: seq<B>, nets: seq<nat>, gen: seq<nat>, fitness: seq<int>,
                           out: B -> bool, delta: int, last: B, m: seq<bool>,
                           birds': seq<B>, nets': seq<nat>, gen': seq<nat>, fitness': seq<int>, cur: B) {
    |nets| == |birds| && |gen| == |birds| &&
    Visited(birds, out, last, m, cur) &&
    Tracks(birds, m, birds') && Tracks(nets, m, nets') && Tracks(gen, m, gen') &&
    fitness' == Adjust(fitness, Pick(gen, m, false), delta)
  }

  /** The entry the loop visits next is the next original entry. */
  lemma {:induction false} SweptAt<B>(birds: seq<B>, nets: seq<nat>, gen: seq<nat>, fitness: seq<int>,
                                      out: B -> bool, delta: int, last: B, m: seq<bool>,
                                      birds': seq<B>, nets': seq<nat>, gen': seq<nat>, fitness': seq<int>, cur: B)
    requires Swept(birds, nets, gen, fitness, out, delta, last, m, birds', nets', gen', fitness', cur)
    ensures |birds'| == Count(m, true) + |birds| - |m|
    ensures |nets'| == |birds'| && |gen'| == |birds'|
    ensures Count(m, true) < |birds'| ==>
              |m| < |birds| && birds'[Count(m, true)] == birds[|m|] && gen'[Count(m, true)] == gen[|m|]
  {
    var c := Count(m, true);
    if c < |birds'| {
      assert birds'[c] == birds[|m|..][0];
      assert gen'[c] == gen[|m|..][0];
    }
  }

  /** The mask after a visit that drops the entry at `|m|` of `n`: the
      entry that slides into its place is skipped, and counts as kept. */
  function Skip(m: seq<bool>, n: nat): (m': seq<bool>)
    ensures |m'| == if |m| + 1 < n then |m| + 2 else |m| + 1
  {
    if |m| + 1 < n then m + [false, true] else m + [false]
  }

  /** A visit that drops the entry: the pass goes on with the entry after
      it already in the visited entry's place. */
  lemma {:induction false} SweptDrop<B>(birds: seq<B>, nets: seq<nat>, gen: seq<nat>, fitness: seq<int>,
                                        out: B -> bool, delta: int, last: B, m: seq<bool>,
                                        birds': seq<B>, nets': seq<nat>, gen': seq<nat>, fitness': seq<int>, cur: B,
                                        i: nat, m': seq<bool>,
                                        birds'': seq<B>, nets'': seq<nat>, gen'': seq<nat>, fitness'': seq<int>, cur': B)
    requires Swept(birds, nets, gen, fitness, out, delta, last, m, birds', nets', gen', fitness', cur)
    requires forall k :: 0 <= k < |gen| ==> gen[k] < |fitness|
    requires i == Count(m, true) && i < |birds'| && cur' == birds'[i] && out(cur')
    requires m' == Skip(m, |birds|)
    requires birds'' == birds'[..i] + birds'[i + 1..] && nets'' == nets'[..i] + nets'[i + 1..]
    requires gen'' == gen'[..i] + gen'[i + 1..] && i < |gen'| && fitness'' == fitness'[gen'[i] := fitness'[gen'[i]] + delta]
    ensures Swept(birds, nets, gen, fitness, out, delta, last, m', birds'', nets'', gen'', fitness'', cur')
    ensures |m| < |m'| <= |birds|
    ensures i + 1 == Count(m', true) || (|m'| == |birds| && i + 1 == Count(m', true) + 1)
  {
    var n := |birds|;
    SweptAt(birds, nets, gen, fitness, out, delta, last, m, birds', nets', gen', fitness', cur);
    SkipCount(m, n);
    VisitDrop(birds, out, last, m, cur);
    AfterDrop(birds, m, birds', i, n);
    AfterDrop(nets, m, nets', i, n);
    AfterDrop(gen, m, gen', i, n);
    DropCharged(gen, m, fitness, fitness', delta, gen'[i], n);
  }

  lemma {:induction false} SkipCount(m: seq<bool>, n: nat)
    requires |m| < n
    ensures Count(Skip(m, n), true) == Count(m, true) + (if |m| + 1 < n then 1 else 0)
  {
    CountSnoc(m, false, true);
    if |m| + 1 < n {
      assert m + [false] + [true] == m + [false, true];
      CountSnoc(m + [false], true, true);
    }
  }

  /** A visit that keeps the entry. */
  lemma {:induction false} SweptKeep<B>(birds: seq<B>, nets: seq<nat>, gen: seq<nat>, fitness: seq<int>,
                                        out: B -> bool, delta: int, last: B, m: seq<bool>,
                                        birds': seq<B>, nets': seq<nat>, gen': seq<nat>, fitness': seq<int>, cur: B,
                                        i: nat, m': seq<bool>, cur': B)
    requires Swept(birds, nets, gen, fitness, out, delta, last, m, birds', nets', gen', fitness', cur)
    requires i == Count(m, true) && i < |birds'| && cur' == birds'[i] && !out(cur') && m' == m + [true]
    ensures Swept(birds, nets, gen, fitness, out, delta, last, m', birds', nets', gen', fitness', cur')
    ensures |m| < |m'| <= |birds|
    ensures i + 1 == Count(m', true)
  {
    SweptAt(birds, nets, gen, fitness, out, delta, last, m, birds', nets', gen', fitness', cur);
    VisitKeep(birds, out, last, m, cur);
    AfterKeep(birds, m, birds');
    AfterKeep(nets, m, nets');
    AfterKeep(gen, m, gen');
    PickStep(gen, m, true, false);
    assert Pick(gen, m + [true], false) == Pick(gen, m, false);
    CountSnoc(m, true, true);
  }

  /** After the last visit the invariant is the postcondition. */
  lemma {:induction false} SweptEnd<B>(birds: seq<B>, nets: seq<nat>, gen: seq<nat>, fitness: seq<int>,
                                       out: B -> bool, delta: int, last: B, m: seq<bool>,
                                       birds': seq<B>, nets': seq<nat>, gen': seq<nat>, fitness': seq<int>, cur: B)
    requires Swept(birds, nets, gen, fitness, out, delta, last, m, birds', nets', gen', fitness', cur)
    requires |m| == |birds|
    ensures birds' == Pick(birds, SweepMask(birds, out), true)
    ensures nets' == Pick(nets, SweepMask(birds, out), true)
    ensures gen' == Pick(gen, SweepMask(birds, out), true)
    ensures fitness' == Adjust(fitness, Pick(gen, SweepMask(birds, out), false), delta)
    ensures cur == LastVisitedFrom(birds, out, 0, last)
  {
    assert m + SweepFrom(birds, out, |m|) == m;
  }

  /** Charging the genome `g` of the entry the visit drops. */
  lemma {:induction false} DropCharged(gen: seq<nat>, m: seq<bool>, fitness: seq<int>, f: seq<int>, delta: int,
                                       g: nat, n: nat)
    requires |m| < |gen| && f == Adjust(fitness, Pick(gen, m, false), delta)
    requires g == gen[|m|] && g < |fitness| && n == |gen|
    ensures f[g := f[g] + delta] == Adjust(fitness, Pick(gen, Skip(m, n), false), delta)
  {
    AdjustSnoc(fitness, Pick(gen, m, false), g, delta);
    SkipDropped(gen, m, n);
  }

  /** What the mask after a drop drops: what `m` dropped, then the entry
      at `|m|`. */
  lemma {:induction false} SkipDropped<T>(s: seq<T>, m: seq<bool>, n: nat)
    requires |m| < |s| && n == |s|
    ensures Pick(s, Skip(m, n), false) == Pick(s, m, false) + [s[|m|]]
  {
    PickStep(s, m, false, false);
    if |m| + 1 < n {
      PickStep(s, m + [false], true, false);
      assert m + [false] + [true] == m + [false, true];
    }
  }

  /** Mid-pass, after the visits that produced mask `m`, the loop variable
      is `cur`: the rest of the pass yields the whole pass's mask and final
      loop variable. */
  ghost predicate Visited<B>(bs: seq<B>, out: B -> bool, last: B, m: seq<bool>, cur: B) {
    |m| <= |bs| &&
    SweepMask(bs, out) == m + SweepFrom(bs, out, |m|) &&
    LastVisitedFrom(bs, out, 0, last) == LastVisitedFrom(bs, out, |m|, cur)
  }

  /** A visit that drops the entry at `|m|`. */
  lemma {:induction false} VisitDrop<B>(bs: seq<B>, out: B -> bool, last: B, m: seq<bool>, cur: B)
    requires Visited(bs, out, last, m, cur) && |m| < |bs| && out(bs[|m|])
    ensures Visited(bs, out, last, Skip(m, |bs|), bs[|m|])
  {
    if |m| + 1 < |bs| {
      assert m + [false, true] + SweepFrom(bs, out, |m| + 2) == m + SweepFrom(bs, out, |m|);
    }
  }

  /** A visit that keeps the entry at `|m|`. */
  lemma {:induction false} VisitKeep<B>(bs: seq<B>, out: B -> bool, last: B, m: seq<bool>, cur: B)
    requires Visited(bs, out, last, m, cur) && |m| < |bs| && !out(bs[|m|])
    ensures Visited(bs, out, last, m + [true], bs[|m|])
  {
  }

  /** `fitness` with `delta` added once to the entry of every id in `ids`
      (ids outside the table are ignored). */
  function Adjust(fitness: seq<int>, ids: seq<nat>, delta: int): (f: seq<int>)
    ensures |f| == |fitness|
    decreases |ids|
  {
    if |ids| == 0 then fitness
    else
      var f0 := Adjust(fitness, ids[..|ids| - 1], delta);
      var g := ids[|ids| - 1];
      if g < |f0| then f0[g := f0[g] + delta] else f0
  }

  lemma {:induction false} AdjustSnoc(fitness: seq<int>, ids: seq<nat>, g: nat, delta: int)
    requires g < |fitness|
    ensures Adjust(fitness, ids + [g], delta) ==
            Adjust(fitness, ids, delta)[g := Adjust(fitness, ids, delta)[g] + delta]
  {
    assert (ids + [g])[..|ids|] == ids;
  }

  /** With ids that do not repeat, adjusting by all of them changes exactly
      the entries of those ids, each by `delta`. */
  lemma {:induction false} AdjustDistinct(fitness: seq<int>, ids: seq<nat>, delta: int, g: nat)
    requires Distinct(ids) && g < |fitness|
    ensures Adjust(fitness, ids, delta)[g] == fitness[g] + (if g in ids then delta else 0)
    decreases |ids|
  {
    if |ids| > 0 {
      var ids0, x := ids[..|ids| - 1], ids[|ids| - 1];
      assert ids == ids0 + [x];
      assert Distinct(ids0);
      AdjustDistinct(fitness, ids0, delta, g);
      assert x !in ids0;
    }
  }

  /** A pass that charges nothing leaves the fitness table as it was. */
  lemma {:induction false} AdjustZero(fitness: seq<int>, ids: seq<nat>)
    ensures Adjust(fitness, ids, 0) == fitness
    decreases |ids|
  {
    if |ids| > 0 {
      AdjustZero(fitness, ids[..|ids| - 1]);
    }
  }

  /** Mid-pass, `cur` holds what mask `m` kept of the first `|m|` entries
      of `orig` followed by the entries not visited yet. */
  ghost predicate Tracks<T>(orig: seq<T>, m: seq<bool>, cur: seq<T>) {
    |m| <= |orig| && cur == Pick(orig, m, true) + orig[|m|..]
  }

  /** Popping the visited entry, at index `i == Count(m, true)` of `cur`
      (`n` is the length of `orig`). */
  lemma {:induction false} AfterDrop<T>(orig: seq<T>, m: seq<bool>, cur: seq<T>, i: nat, n: nat)
    requires Tracks(orig, m, cur) && |m| < |orig| && i == Count(m, true) && n == |orig|
    ensures i < |cur| && cur[i] == orig[|m|]
    ensures Tracks(orig, Skip(m, n), cur[..i] + cur[i + 1..])
  {
    var k, kept := |m|, Pick(orig, m, true);
    assert orig[k..] == [orig[k]] + orig[k + 1..];
    assert cur == kept + [orig[k]] + orig[k + 1..];
    Unsplice(kept, orig[k], orig[k + 1..]);
    var rest := cur[..i] + cur[i + 1..];
    assert rest == kept + orig[k + 1..];
    if k + 1 < |orig| {
      AfterDropMid(orig, m, kept);
      assert Skip(m, n) == m + [false, true];
    } else {
      PickStep(orig, m, false, true);
      assert Skip(m, n) == m + [false];
      assert Tracks(orig, m + [false], rest);
    }
  }

  /** The same when an entry follows the dropped one. */
  lemma {:induction false} AfterDropMid<T>(orig: seq<T>, m: seq<bool>, kept: seq<T>)
    requires |m| + 1 < |orig| && kept == Pick(orig, m, true)
    ensures Tracks(orig, m + [false, true], kept + orig[|m| + 1..])
  {
    var k := |m|;
    SkipAfterDrop(orig, m, kept);
    assert orig[k + 1..] == [orig[k + 1]] + orig[k + 2..];
    assert kept + orig[k + 1..] == kept + [orig[k + 1]] + orig[k + 2..];
  }

  /** Removing the element between `a` and `b`. */
  lemma {:induction false} Unsplice<T>(a: seq<T>, x: T, b: seq<T>)
    ensures (a + [x] + b)[|a|] == x
    ensures (a + [x] + b)[..|a|] + (a + [x] + b)[|a| + 1..] == a + b
  {
    var s := a + [x] + b;
    assert s[..|a|] == a;
    assert s[|a| + 1..] == b;
  }

  /** What the mask after a drop keeps, when an entry follows the dropped one. */
  lemma {:induction false} SkipAfterDrop<T>(orig: seq<T>, m: seq<bool>, kept: seq<T>)
    requires |m| + 1 < |orig| && kept == Pick(orig, m, true)
    ensures Pick(orig, m + [false, true], true) == kept + [orig[|m| + 1]]
  {
    PickStep(orig, m, false, true);
    PickStep(orig, m + [false], true, true);
    assert m + [false] + [true] == m + [false, true];
  }

  /** Keeping the visited entry. */
  lemma {:induction false} AfterKeep<T>(orig: seq<T>, m: seq<bool>, cur: seq<T>)
    requires Tracks(orig, m, cur) && |m| < |orig|
    ensures Tracks(orig, m + [true], cur)
  {
    PickStep(orig, m, true, true);
    assert orig[|m|..] == [orig[|m|]] + orig[|m| + 1..];
  }

  /** With genome ids that do not repeat, adjusting by the ids a mask drops
      changes exactly the genomes that mask removes, each by `delta`. */
  lemma {:induction false} AdjustDropped(fitness: seq<int>, gen: seq<nat>, m: seq<bool>, delta: int, g: nat)
    requires |m| <= |gen| && Distinct(gen) && g < |fitness|
    ensures Adjust(fitness, Pick(gen, m, false), delta)[g] ==
            fitness[g] + (if g in gen[..|m|] && g !in Pick(gen, m, true) then delta else 0)
    decreases |m|
  {
    if |m| > 0 {
      var m0, b := m[..|m| - 1], m[|m| - 1];
      assert m == m0 + [b];
      AdjustDropped(fitness, gen, m0, delta, g);
      AdjustDroppedStep(fitness, gen, m0, b, delta, g);
    }
  }

  lemma {:induction false} AdjustDroppedStep(fitness: seq<int>, gen: seq<nat>, m: seq<bool>, b: bool, delta: int, g: nat)
    requires |m| < |gen| && Distinct(gen) && g < |fitness|
    requires Adjust(fitness, Pick(gen, m, false), delta)[g] ==
             fitness[g] + (if g in gen[..|m|] && g !in Pick(gen, m, true) then delta else 0)
    ensures Adjust(fitness, Pick(gen, m + [b], false), delta)[g] ==
            fitness[g] + (if g in gen[..|m| + 1] && g !in Pick(gen, m + [b], true) then delta else 0)
  {
    var x: nat := gen[|m|];
    var kept: seq<nat> := Pick<nat>(gen, m, true);
    var dropped: seq<nat> := Pick<nat>(gen, m, false);
    assert g in gen[..|m| + 1] <==> g in gen[..|m|] || g == x by {
      assert gen[..|m| + 1] == gen[..|m|] + [x];
    }
    assert x !in gen[..|m|] by {
      assert forall i :: 0 <= i < |m| ==> gen[..|m|][i] == gen[i] != gen[|m|];
    }
    PickStep<nat>(gen, m, b, true);
    PickStep<nat>(gen, m, b, false);
    if b {
      assert Pick(gen, m + [b], false) == dropped;
      assert Pick(gen, m + [b], true) == kept + [x];
      assert g in kept + [x] <==> g in kept || g == x;
    } else {
      assert x !in kept by {
        if x in kept {
          PickFromPrefix<nat>(gen, m, true, x);
        }
      }
      if x < |fitness| {
        AdjustSnoc(fitness, dropped, x, delta);
      } else {
        assert (dropped + [x])[..|dropped|] == dropped;
      }
    }
  }
}
