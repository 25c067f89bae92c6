/** Keep/drop masks over parallel lists.  The game keeps three parallel
    lists (birds, networks, genomes) and removes entries from all three at
    once; a mask of booleans, one per original entry, says which entries a
    pass kept, and applying the same mask to each list is what "index
    correspondence" means. */
module Lists {

  /** Number of entries of `m` equal to `want`. */
  function Count(m: seq<bool>, want: bool): (n: nat)
    ensures n <= |m|
    decreases |m|
  {
    if |m| == 0 then 0
    else Count(m[..|m| - 1], want) + (if m[|m| - 1] == want then 1 else 0)
  }

  /** The entries among the first `|m|` of `s` whose mask entry equals
      `want`, in order. */
  function Pick<T>(s: seq<T>, m: seq<bool>, want: bool): (r: seq<T>)
    requires |m| <= |s|
    ensures |r| == Count(m, want)
    decreases |m|
  {
    if |m| == 0 then []
    else Pick(s, m[..|m| - 1], want) + (if m[|m| - 1] == want then [s[|m| - 1]] else [])
  }

  lemma {:induction false} CountSnoc(m: seq<bool>, b: bool, want: bool)
    ensures Count(m + [b], want) == Count(m, want) + (if b == want then 1 else 0)
  {
    assert (m + [b])[..|m|] == m;
  }

  /** Extending a mask by one entry over the next element of `s`. */
  lemma {:induction false} PickStep<T>(s: seq<T>, m: seq<bool>, b: bool, want: bool)
    requires |m| < |s|
    ensures Pick(s, m + [b], want) == Pick(s, m, want) + (if b == want then [s[|m|]] else [])
  {
    assert (m + [b])[..|m|] == m;
  }

  /** Only the first `|m|` entries matter. */
  lemma {:induction false} PickPrefix<T>(s: seq<T>, t: seq<T>, m: seq<bool>, want: bool)
    requires |m| <= |s|
    ensures Pick(s + t, m, want) == Pick(s, m, want)
    decreases |m|
  {
    if |m| > 0 {
      PickPrefix(s, t, m[..|m| - 1], want);
      assert (s + t)[|m| - 1] == s[|m| - 1];
    }
  }

  /** Every picked element comes from `s`. */
  lemma {:induction false} PickMember<T>(s: seq<T>, m: seq<bool>, want: bool, x: T)
    requires |m| <= |s|
    requires x in Pick(s, m, want)
    ensures x in s
    decreases |m|
  {
    if |m| > 0 {
      if x in Pick(s, m[..|m| - 1], want) {
        PickMember(s, m[..|m| - 1], want, x);
      }
    }
  }

  /** No value occurs twice. */
  predicate Distinct<T(==)>(s: seq<T>) {
    forall i, j :: 0 <= i < j < |s| ==> s[i] != s[j]
  }

  /** Every picked element comes from the first `|m|` entries. */
  lemma {:induction false} PickFromPrefix<T>(s: seq<T>, m: seq<bool>, want: bool, x: T)
    requires |m| <= |s|
    requires x in Pick(s, m, want)
    ensures x in s[..|m|]
  {
    PickPrefix(s[..|m|], s[|m|..], m, want);
    assert s[..|m|] + s[|m|..] == s;
    PickMember(s[..|m|], m, want, x);
  }

  /** Picking from a list without repetitions gives one without repetitions. */
  lemma {:induction false} PickDistinct<T>(s: seq<T>, m: seq<bool>, want: bool)
    requires |m| <= |s| && Distinct(s)
    ensures Distinct(Pick(s, m, want))
    decreases |m|
  {
    if |m| > 0 {
      var m0 := m[..|m| - 1];
      var x := s[|m| - 1];
      PickDistinct(s, m0, want);
      if m[|m| - 1] == want {
        var p := Pick(s, m0, want);
        if x in p {
          PickFromPrefix(s, m0, want, x);
          assert false;
        }
      }
    }
  }

  /** The mask over the original list that results from applying `a` and then
      `b` (a mask over the entries `a` kept). */
  function Compose(a: seq<bool>, b: seq<bool>): (c: seq<bool>)
    requires |b| == Count(a, true)
    ensures |c| == |a|
    ensures Count(c, true) == Count(b, true)
    decreases |a|
  {
    if |a| == 0 then []
    else if a[|a| - 1] then
      var c0 := Compose(a[..|a| - 1], b[..|b| - 1]);
      CountSnoc(c0, b[|b| - 1], true);
      assert b == b[..|b| - 1] + [b[|b| - 1]];
      CountSnoc(b[..|b| - 1], b[|b| - 1], true);
      c0 + [b[|b| - 1]]
    else
      var c0 := Compose(a[..|a| - 1], b);
      CountSnoc(c0, false, true);
      c0 + [false]
  }

  /** Two successive removal passes equal one pass with the composed mask. */
  lemma {:induction false} PickCompose<T>(s: seq<T>, a: seq<bool>, b: seq<bool>)
    requires |a| <= |s| && |b| == Count(a, true)
    ensures Pick(Pick(s, a, true), b, true) == Pick(s, Compose(a, b), true)
    decreases |a|
  {
    if |a| > 0 {
      if a[|a| - 1] {
        ComposeLastKept(s, a, b, true);
        PickCompose(s, a[..|a| - 1], b[..|b| - 1]);
      } else {
        ComposeLastDropped(s, a, b, true);
        PickCompose(s, a[..|a| - 1], b);
      }
    }
  }

  /** The last step of `Compose` seen through `Pick`, when the first pass
      kept the last entry. */
  lemma {:induction false} ComposeLastKept<T>(s: seq<T>, a: seq<bool>, b: seq<bool>, want: bool)
    requires 0 < |a| <= |s| && |b| == Count(a, true) && a[|a| - 1]
    ensures 0 < |b|
    ensures Pick(s, Compose(a, b), want) ==
            Pick(s, Compose(a[..|a| - 1], b[..|b| - 1]), want) + (if b[|b| - 1] == want then [s[|a| - 1]] else [])
    ensures Pick(Pick(s, a, true), b, want) ==
            Pick(Pick(s, a[..|a| - 1], true), b[..|b| - 1], want) + (if b[|b| - 1] == want then [s[|a| - 1]] else [])
    ensures Pick(s, a, false) == Pick(s, a[..|a| - 1], false)
  {
    var a0 := a[..|a| - 1];
    var b0, bl := b[..|b| - 1], b[|b| - 1];
    assert Pick(s, Compose(a, b), want) == Pick(s, Compose(a0, b0), want) + (if bl == want then [s[|a| - 1]] else []) by {
      var c, c0 := Compose(a, b), Compose(a0, b0);
      assert c == c0 + [bl];
      assert c[..|c| - 1] == c0;
    }
    SecondPassLast(s, a, b, want);
  }

  /** The second pass over what the first kept, when the first kept the
      last entry. */
  lemma {:induction false} SecondPassLast<T>(s: seq<T>, a: seq<bool>, b: seq<bool>, want: bool)
    requires 0 < |a| <= |s| && |b| == Count(a, true) && a[|a| - 1]
    ensures 0 < |b|
    ensures Pick(Pick(s, a, true), b, want) ==
            Pick(Pick(s, a[..|a| - 1], true), b[..|b| - 1], want) + (if b[|b| - 1] == want then [s[|a| - 1]] else [])
  {
    var a0, y := a[..|a| - 1], s[|a| - 1];
    var p0 := Pick(s, a0, true);
    var b0, bl := b[..|b| - 1], b[|b| - 1];
    assert Pick(s, a, true) == p0 + [y];
    PickPrefix(p0, [y], b0, want);
    assert (p0 + [y])[|b0|] == y;
    assert b == b0 + [bl];
  }

  /** The same when the first pass dropped the last entry. */
  lemma {:induction false} ComposeLastDropped<T>(s: seq<T>, a: seq<bool>, b: seq<bool>, want: bool)
    requires 0 < |a| <= |s| && |b| == Count(a, true) && !a[|a| - 1]
    ensures Pick(s, Compose(a, b), want) ==
            Pick(s, Compose(a[..|a| - 1], b), want) + (if !want then [s[|a| - 1]] else [])
    ensures Pick(s, a, false) == Pick(s, a[..|a| - 1], false) + [s[|a| - 1]]
    ensures Pick(s, a, true) == Pick(s, a[..|a| - 1], true)
  {
    ComposeUnfoldDropped(a, b);
    PickStep(s, Compose(a[..|a| - 1], b), false, want);
    PickSnoc(s, a);
  }

  /** `Compose` on a mask whose last entry drops. */
  lemma {:induction false} ComposeUnfoldDropped(a: seq<bool>, b: seq<bool>)
    requires 0 < |a| && |b| == Count(a, true) && !a[|a| - 1]
    ensures |b| == Count(a[..|a| - 1], true)
    ensures Compose(a, b) == Compose(a[..|a| - 1], b) + [false]
  {
  }

  /** `Pick` by its last mask entry. */
  lemma {:induction false} PickSnoc<T>(s: seq<T>, a: seq<bool>)
    requires 0 < |a| <= |s|
    ensures Pick(s, a, false) == Pick(s, a[..|a| - 1], false) + (if a[|a| - 1] then [] else [s[|a| - 1]])
    ensures Pick(s, a, true) == Pick(s, a[..|a| - 1], true) + (if a[|a| - 1] then [s[|a| - 1]] else [])
  {
  }

  /** An entry dropped by the composed mask was dropped by the first pass
      or by the second. */
  lemma {:induction false} ComposeDropped<T>(s: seq<T>, a: seq<bool>, b: seq<bool>, x: T)
    requires |a| <= |s| && |b| == Count(a, true)
    requires x in Pick(s, Compose(a, b), false)
    ensures x in Pick(s, a, false) || x in Pick(Pick(s, a, true), b, false)
    decreases |a|
  {
    if |a| > 0 {
      var a0 := a[..|a| - 1];
      if a[|a| - 1] {
        ComposeLastKept(s, a, b, false);
        var b0 := b[..|b| - 1];
        if x in Pick(s, Compose(a0, b0), false) {
          ComposeDropped(s, a0, b0, x);
        }
      } else {
        ComposeLastDropped(s, a, b, false);
        if x in Pick(s, Compose(a0, b), false) {
          ComposeDropped(s, a0, b, x);
        }
      }
    }
  }

  /** The mask that keeps all of `n` entries. */
  function AllKept(n: nat): (m: seq<bool>)
    ensures |m| == n
  {
    if n == 0 then [] else AllKept(n - 1) + [true]
  }

  lemma {:induction false} PickAll<T>(s: seq<T>, n: nat)
    requires n <= |s|
    ensures Pick(s, AllKept(n), true) == s[..n]
    ensures Pick(s, AllKept(n), false) == []
  {
    if n > 0 {
      PickAll(s, n - 1);
      PickStep(s, AllKept(n - 1), true, true);
      PickStep(s, AllKept(n - 1), true, false);
      assert s[..n] == s[..n - 1] + [s[n - 1]];
    }
  }

  /** An entry the mask drops is among the dropped ones. */
  lemma {:induction false} DroppedAt<T>(s: seq<T>, m: seq<bool>, k: nat)
    requires |m| <= |s| && k < |m| && !m[k]
    ensures s[k] in Pick(s, m, false)
    decreases |m|
  {
    var n := |m| - 1;
    if k < n {
      assert m[..n][k] == m[k];
      DroppedAt(s, m[..n], k);
    }
  }

  /** Every picked element sits at an index the mask gives `want`. */
  lemma {:induction false} PickIndex<T>(s: seq<T>, m: seq<bool>, want: bool, i: nat)
    requires |m| <= |s| && i < |Pick(s, m, want)|
    ensures exists j :: 0 <= j < |m| && m[j] == want && s[j] == Pick(s, m, want)[i]
    decreases |m|
  {
    var n := |m| - 1;
    var p0 := Pick(s, m[..n], want);
    if i < |p0| {
      PickIndex(s, m[..n], want, i);
      var j :| 0 <= j < n && m[..n][j] == want && s[j] == p0[i];
      assert Pick(s, m, want)[i] == p0[i];
      assert m[j] == want;
    } else {
      assert m[n] == want && s[n] == Pick(s, m, want)[i];
    }
  }

}
