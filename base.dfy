/** The scrolling ground, `Base.move`: two copies of the ground image, each
    `width` wide, that leapfrog each other. */
module Ground {

  const BASE_VELOCITY: int := 5

  function Abs(n: int): int { if n < 0 then -n else n }
  function Min(a: int, b: int): int { if a <= b then a else b }

  /** The two tiles are exactly one image apart, and the left one starts at
      or before the left edge of the window without having left it. */
  predicate Tiled(x1: int, x2: int, width: int) {
    Abs(x1 - x2) == width && -width <= Min(x1, x2) <= 0
  }

  /** One call of `Base.move` on the two tile offsets. */
  function Scrolled(x1: int, x2: int, width: int): (r: (int, int))
    requires width > BASE_VELOCITY
    ensures Tiled(x1, x2, width) ==> Tiled(r.0, r.1, width)
    ensures Abs(x1 - x2) == width ==> Abs(r.0 - r.1) == width
  {
    var a := x1 - BASE_VELOCITY;
    var b := x2 - BASE_VELOCITY;
    var a' := if a + width < 0 then b + width else a;
    var b' := if b + width < 0 then a' + width else b;
    (a', b')
  }

  /** The offsets after `n` moves. */
  function ScrolledN(x1: int, x2: int, width: int, n: nat): (int, int)
    requires width > BASE_VELOCITY
  {
    if n == 0 then (x1, x2)
    else var p := ScrolledN(x1, x2, width, n - 1); Scrolled(p.0, p.1, width)
  }

  /** From the initial offsets 0 and `width`, any number of moves keeps the
      tiles one image apart and the window's left edge covered. */
  lemma {:induction false} AlwaysTiled(width: int, n: nat)
    requires width > BASE_VELOCITY
    ensures Tiled(ScrolledN(0, width, width, n).0, ScrolledN(0, width, width, n).1, width)
  {
    if n > 0 {
      AlwaysTiled(width, n - 1);
    }
  }

  class Base {
    const y: int
    const width: int
    var x1: int
    var x2: int

    ghost predicate Valid()
      reads this
    {
      width > BASE_VELOCITY && Tiled(x1, x2, width)
    }

    constructor (y0: int, w: int)
      requires w > BASE_VELOCITY
      ensures Valid() && y == y0 && width == w && x1 == 0 && x2 == w
    {
      y := y0;
      width := w;
      x1 := 0;
      x2 := w;
    }

    method Move()
      requires Valid()
      modifies this
      ensures Valid()
      ensures (x1, x2) == Scrolled(old(x1), old(x2), width)
    {
      x1 := x1 - BASE_VELOCITY;
      x2 := x2 - BASE_VELOCITY;
      if x1 + width < 0 {
        x1 := x2 + width;
      }
      if x2 + width < 0 {
        x2 := x1 + width;
      }
    }
  }
}
