/** `calculate_image_dimensions` in exact integer arithmetic: the height is
    the ceiling of sqrt(n / (16/9)) and the width the ceiling of 16/9 times
    the height, each stated as the least natural number meeting its bound. */
module Dimensions {

  datatype Dims = Dims(width: nat, height: nat)

  /** A height of `h` rows is too short for `n` digits at 16:9:
      (16/9) * h * h < n. */
  predicate TooShort(n: nat, h: nat) {
    16 * h * h < 9 * n
  }

  /** Every height below `h` is too short. */
  predicate AllBelowTooShort(n: nat, h: nat) {
    forall h': nat | h' < h :: TooShort(n, h')
  }

  /** The least height from `h` upwards that is not too short. */
  function HeightFrom(n: nat, h: nat): (r: nat)
    requires AllBelowTooShort(n, h)
    ensures h <= r
    ensures !TooShort(n, r)
    ensures AllBelowTooShort(n, r)
    decreases n - h
  {
    if TooShort(n, h) then
      assert h < n by { ShortHeightBelow(n, h); }
      HeightFrom(n, h + 1)
    else
      h
  }

  lemma ShortHeightBelow(n: nat, h: nat)
    requires TooShort(n, h)
    ensures h < n
  {
    if n <= h {
      assert 9 * n <= 16 * n;
      assert n * 1 <= h * h by { if h > 0 { MulMono(1, h, h); } }
    }
  }

  lemma MulMono(a: nat, b: nat, c: nat)
    requires a <= b
    ensures a * c <= b * c
  {
  }

  /** `math.ceil(math.sqrt(n / (16 / 9)))`: the least `h` with (16/9) * h * h >= n. */
  function PlanHeight(n: nat): (h: nat)
    ensures !TooShort(n, h)
    ensures AllBelowTooShort(n, h)
  {
    HeightFrom(n, 0)
  }

  /** `math.ceil(16 / 9 * h)`: the least `w` with 9 * w >= 16 * h. */
  function PlanWidth(h: nat): (w: nat)
    ensures 9 * w >= 16 * h
    ensures w == 0 || 9 * (w - 1) < 16 * h
  {
    (16 * h + 8) / 9
  }

  /** `calculate_image_dimensions(n)`: a grid with room for all `n` digits,
      empty for no digits, and otherwise at least one row and no narrower
      than it is tall. */
  function Plan(n: nat): (d: Dims)
    ensures d.width * d.height >= n
    ensures n == 0 ==> d == Dims(0, 0)
    ensures n >= 1 ==> d.height >= 1 && d.width >= d.height
  {
    var h := PlanHeight(n);
    var w := PlanWidth(h);
    Covers(n, h, w);
    Shape(n, h, w);
    Dims(w, h)
  }

  /** A height that is not too short and a width that keeps 16:9 span at
      least `n` cells. */
  lemma Covers(n: nat, h: nat, w: nat)
    requires !TooShort(n, h) && 9 * w >= 16 * h
    ensures w * h >= n
  {
    assert 16 * h * h >= 9 * n;
    assert 9 * w * h >= 16 * h * h by { MulMono(16 * h, 9 * w, h); }
    assert 9 * (w * h) >= 9 * n;
  }

  /** The least height and width: both zero for no digits, otherwise a
      nonempty grid at least as wide as it is tall. */
  lemma Shape(n: nat, h: nat, w: nat)
    requires !TooShort(n, h) && AllBelowTooShort(n, h)
    requires 9 * w >= 16 * h && (w == 0 || 9 * (w - 1) < 16 * h)
    ensures n == 0 ==> h == 0 && w == 0
    ensures n >= 1 ==> h >= 1 && w >= h
  {
    if n == 0 {
      assert !TooShort(0, 0);
    }
    if n >= 1 {
      assert TooShort(n, 0);
    }
  }

  /** The planner keeps the 16:9 shape tight: one row fewer, or one column
      fewer, would no longer respect it. */
  lemma PlanTight(n: nat)
    ensures Plan(n).height >= 1 ==> 16 * (Plan(n).height - 1) * (Plan(n).height - 1) < 9 * n
    ensures Plan(n).width >= 1 ==> 9 * (Plan(n).width - 1) < 16 * Plan(n).height
  {
    var h := Plan(n).height;
    if h >= 1 {
      assert TooShort(n, h - 1);
    }
  }

  /** A height that is not too short while one row fewer is, is the planned
      height: the planner picks the least height that fits. */
  lemma PlanHeightUnique(n: nat, h: nat)
    requires !TooShort(n, h)
    requires h == 0 || TooShort(n, h - 1)
    ensures PlanHeight(n) == h
  {
    var p := PlanHeight(n);
    if p < h {
      SquareMono(p, h - 1);
      MulMono(p * p, (h - 1) * (h - 1), 16);
    }
  }

  lemma SquareMono(a: nat, b: nat)
    requires a <= b
    ensures a * a <= b * b
  {
    MulMono(a, b, a);
    MulMono(a, b, b);
  }

  /** One million digits make a 1334 x 750 grid. */
  lemma PlanMillion()
    ensures Plan(1000000) == Dims(1334, 750)
  {
    PlanHeightUnique(1000000, 750);
  }
}
