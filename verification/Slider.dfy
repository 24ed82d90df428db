/** The two handles of a range slider. Values are counted in units of 0.00001, the precision
    to which the source rounds them, so that rounding changes nothing. */
module Slider {
  import opened Wrappers

  // The number 1 in these units: the step when none is given
  const ONE := 100000

  datatype Options = Options(min: int, max: int, step: int)
  {
    predicate Valid() {
      min <= max
    }

    function Step(): int
      ensures Step() > 0
    {
      if step > 0 then step else ONE
    }
  }

  // _trimAlignValue
  function Trim(o: Options, val: int): int {
    if val <= o.min then o.min
    else if val >= o.max then o.max
    else
      var valModStep := (val - o.min) % o.Step();
      var alignValue := val - valModStep;
      if valModStep * 2 >= o.Step() then alignValue + o.Step() else alignValue
  }

  // A value on the grid of steps from the minimum
  predicate Aligned(o: Options, v: int) {
    (v - o.min) % o.Step() == 0
  }

  lemma Divided(a: int, s: int) returns (q: int, r: int)
    requires s > 0
    ensures a == q * s + r && 0 <= r < s && r == a % s
    ensures a >= 0 ==> q >= 0 && q * s >= 0
  {
    q, r := a / s, a % s;
  }

  lemma Scaled(a: int, b: int, s: int)
    requires a <= b && s > 0
    ensures a * s <= b * s
  {
    assert (b - a) * s >= 0;
  }

  lemma Remainder(q: int, s: int, r: int)
    requires 0 <= r < s
    ensures (q * s + r) % s == r
  {
    var a := q * s + r;
    var d := a / s - q;
    assert s * d == r - a % s;
    assert d >= 1 ==> s * d >= s;
    assert d <= -1 ==> s * d <= -s;
  }

  /** An in-range value moves to the nearest grid value, and half way between two to the upper one. */
  lemma TrimIsNear(o: Options, v: int)
    requires o.min < v < o.max
    ensures Aligned(o, Trim(o, v)) && 2 * (Trim(o, v) - v) <= o.Step() && 2 * (v - Trim(o, v)) < o.Step()
  {
    var s := o.Step();
    var q, r := Divided(v - o.min, s);
    Remainder(q, s, 0);
    Remainder(q + 1, s, 0);
    assert (q + 1) * s == q * s + s;
  }

  // How far the maximum lies beyond the last grid value
  function Excess(o: Options): int {
    (o.max - o.min) % o.Step()
  }

  /** Trimming stays between the bounds, for every value, exactly when no value below the
      maximum is rounded past it. In particular it does when the range is a whole number of
      steps. */
  lemma TrimStaysInBounds(o: Options)
    requires o.Valid()
    ensures (forall v :: o.min <= Trim(o, v) <= o.max) <==> 2 * (Excess(o) - 1) < o.Step()
    ensures Excess(o) == 0 ==> forall v :: o.min <= Trim(o, v) <= o.max
  {
    if 2 * (Excess(o) - 1) < o.Step() {
      forall v ensures o.min <= Trim(o, v) <= o.max {
        TrimBelowMax(o, v);
      }
    } else {
      var s := o.Step();
      var q, r := Divided(o.max - o.min, s);
      Remainder(q, s, r - 1);
      var v := o.max - 1;
      assert v - o.min == q * s + (r - 1);
      OneStepIsLess(o);
      assert Trim(o, v) > o.max;
    }
  }

  lemma OneStepIsLess(o: Options)
    requires o.Valid() && Excess(o) >= 1
    ensures o.Step() >= 2 && (Excess(o) >= 2 ==> o.min < o.max - 1)
  {
    var q, r := Divided(o.max - o.min, o.Step());
  }

  lemma TrimBelowMax(o: Options, v: int)
    requires o.Valid() && 2 * (Excess(o) - 1) < o.Step()
    ensures o.min <= Trim(o, v) <= o.max
  {
    if o.min < v < o.max {
      var s := o.Step();
      var q, r := Divided(v - o.min, s);
      var q', r' := Divided(o.max - o.min, s);
      NoLarger(q, q', s, r, r');
    }
  }

  lemma NoLarger(q: int, q': int, s: int, r: int, r': int)
    requires s > 0 && 0 <= r < s && 0 <= r' < s && q * s + r < q' * s + r'
    ensures q < q' ==> (q + 1) * s <= q' * s && (q + 1) * s == q * s + s
    ensures q == q' ==> r < r'
    ensures q <= q'
  {
    assert (q + 1) * s == q * s + s;
    if q < q' {
      Scaled(q + 1, q', s);
    } else if q' < q {
      assert (q' + 1) * s == q' * s + s;
      Scaled(q' + 1, q, s);
    }
  }

  // Only one value past the maximum can come out: the first grid value after it.
  lemma OnePastMaximum(o: Options, v: int)
    requires o.Valid() && Trim(o, v) > o.max
    ensures Trim(o, v) == o.max - Excess(o) + o.Step()
  {
    var s := o.Step();
    var q, r := Divided(v - o.min, s);
    var q', r' := Divided(o.max - o.min, s);
    NoLarger(q, q', s, r, r');
    assert (q + 1) * s == q * s + s;
  }

  // ---------- What is read is trimmed once more ----------

  function Shown(o: Options, stored: int): int {
    Trim(o, stored)
  }

  lemma TwiceIsInBounds(o: Options, v: int)
    requires o.Valid()
    ensures o.min <= Trim(o, Trim(o, v)) <= o.max
    ensures Trim(o, v) <= o.max ==> Trim(o, Trim(o, v)) == Trim(o, v)
    ensures Trim(o, v) >= o.min
  {
    TrimAtLeastMin(o, v);
    if o.min < v < o.max {
      TrimIsNear(o, v);
    }
  }

  lemma TrimAtLeastMin(o: Options, v: int)
    requires o.Valid()
    ensures Trim(o, v) >= o.min
  {
    if o.min < v < o.max {
      var q, r := Divided(v - o.min, o.Step());
    }
  }

  function Least(a: int, b: int): int {
    if a <= b then a else b
  }

  // Cut off at the maximum, trimming keeps the order.
  lemma TrimIsMonotone(o: Options, v: int, w: int)
    requires o.Valid() && v <= w
    ensures Least(Trim(o, v), o.max) <= Least(Trim(o, w), o.max)
  {
    TrimAtLeastMin(o, w);
    if o.min < v < w < o.max {
      var s := o.Step();
      var q, r := Divided(v - o.min, s);
      var q', r' := Divided(w - o.min, s);
      NoLarger(q, q', s, r, r');
    }
  }

  lemma TwiceIsCut(o: Options, v: int)
    requires o.Valid()
    ensures Trim(o, Trim(o, v)) == Least(Trim(o, v), o.max)
  {
    TwiceIsInBounds(o, v);
    if Trim(o, v) > o.max {
      assert Trim(o, Trim(o, v)) == o.max;
    }
  }

  // ---------- Sliding ----------

  // One attempt to slide a handle; the callback may refuse it.
  datatype Slide = Slide(upper: bool, to: int, allowed: bool)

  datatype Handles = Handles(lower: int, upper: int)

  function Moved(o: Options, h: Handles, m: Slide): Handles {
    var other := Shown(o, if m.upper then h.lower else h.upper);
    var to := if (!m.upper && m.to > other) || (m.upper && m.to < other) then other else m.to;
    if to == Shown(o, if m.upper then h.upper else h.lower) || !m.allowed then h
    else if m.upper then h.(upper := Trim(o, to))
    else h.(lower := Trim(o, to))
  }

  predicate Ordered(o: Options, h: Handles) {
    Shown(o, h.lower) <= Shown(o, h.upper)
  }

  // The guard: the lower handle is not shown past the maximum.
  predicate LowerInBounds(o: Options, h: Handles) {
    Shown(o, h.lower) <= o.max
  }

  lemma SlideKeepsOrder(o: Options, h: Handles, m: Slide)
    requires o.Valid() && Ordered(o, h) && LowerInBounds(o, h)
    ensures Ordered(o, Moved(o, h, m)) && LowerInBounds(o, Moved(o, h, m))
  {
    hide Trim;
    var r := Moved(o, h, m);
    var other := Shown(o, if m.upper then h.lower else h.upper);
    var to := if (!m.upper && m.to > other) || (m.upper && m.to < other) then other else m.to;
    TwiceIsInBounds(o, h.lower);
    TwiceIsInBounds(o, h.upper);
    TwiceIsInBounds(o, to);
    TwiceIsCut(o, to);
    TwiceIsCut(o, h.lower);
    TwiceIsCut(o, h.upper);
    if m.upper {
      TrimIsMonotone(o, other, to);
    } else {
      TrimIsMonotone(o, to, other);
    }
  }

  function Run(o: Options, h: Handles, ms: seq<Slide>): Handles
    decreases |ms|
  {
    if ms == [] then h else Run(o, Moved(o, h, ms[0]), ms[1..])
  }

  lemma {:induction false} RunKeepsOrder(o: Options, h: Handles, ms: seq<Slide>)
    requires o.Valid() && Ordered(o, h) && LowerInBounds(o, h)
    ensures Ordered(o, Run(o, h, ms))
    decreases |ms|
  {
    hide Moved, Ordered, LowerInBounds;
    if ms != [] {
      SlideKeepsOrder(o, h, ms[0]);
      RunKeepsOrder(o, Moved(o, h, ms[0]), ms[1..]);
    }
  }

  // ---------- What the user does ----------

  // A key, or a value: where the mouse points, or a page away
  datatype Input = Home | End | Up | Down | Near(v: int)

  datatype Action = Action(upper: bool, input: Input, allowed: bool)

  // The value that is handed to the slide, unless there is nothing to do
  function Aim(o: Options, current: int, input: Input): Option<int> {
    match input
    case Home => Some(o.min)
    case End => Some(o.max)
    case Up => if current == o.max then None else Some(Trim(o, current + o.step))
    case Down => if current == o.min then None else Some(Trim(o, current - o.step))
    case Near(v) => Some(Trim(o, v))
  }

  function Acted(o: Options, h: Handles, a: Action): Handles {
    match Aim(o, Shown(o, if a.upper then h.upper else h.lower), a.input)
    case None => h
    case Some(to) => Moved(o, h, Slide(a.upper, to, a.allowed))
  }

  ghost predicate IsTrimmed(o: Options, v: int) {
    exists w :: v == Trim(o, w)
  }

  lemma AimIsTrimmed(o: Options, current: int, input: Input)
    requires o.Valid()
    ensures var r := Aim(o, current, input); r.Some? ==> IsTrimmed(o, r.value)
  {
    assert o.min == Trim(o, o.min) && o.max == Trim(o, o.max);
  }

  // ---------- Where a handle ends up ----------

  function Of(h: Handles, upper: bool): int {
    if upper then h.upper else h.lower
  }

  // The target, stopped at the other handle
  function Stopped(o: Options, h: Handles, m: Slide): int {
    var other := Shown(o, Of(h, !m.upper));
    if m.upper then (if m.to < other then other else m.to) else Least(m.to, other)
  }

  /** A handle that may slide to a trimmed value is shown there afterwards, or where the other
      handle stops it, and never past the maximum unless it has been there before. The other handle
      stays, and so do both if the callback refuses. */
  lemma SlideArrives(o: Options, h: Handles, m: Slide)
    requires o.Valid() && IsTrimmed(o, m.to)
    ensures var r, to, current := Moved(o, h, m), Stopped(o, h, m), Shown(o, Of(h, m.upper));
            && Of(r, !m.upper) == Of(h, !m.upper)
            && (!m.allowed ==> r == h)
            && (m.allowed ==> Shown(o, Of(r, m.upper)) == if to == current then current else Least(to, o.max))
  {
    hide Trim, Excess;
    var to := Stopped(o, h, m);
    assert IsTrimmed(o, to);
    var w :| to == Trim(o, w);
    TwiceIsCut(o, w);
    TwiceIsCut(o, to);
  }

  /** From a value on the grid, Up goes on by one step or to the maximum and Down goes back by one
      step. Home and End go to the bounds, and a page or the mouse to within half a step. */
  lemma KeysGoOneStep(o: Options, current: int, near: int)
    requires o.Valid() && o.step > 0 && o.min <= current <= o.max && Aligned(o, current)
    ensures Aim(o, current, Home) == Some(o.min) && Aim(o, current, End) == Some(o.max)
    ensures Aim(o, current, Up) == if current == o.max then None else Some(Least(current + o.step, o.max))
    ensures Aim(o, current, Down) == if current == o.min then None else Some(current - o.step)
    ensures var aim := Aim(o, current, Near(near));
            && aim.Some? && (near <= o.min ==> aim.value == o.min) && (near >= o.max ==> aim.value == o.max)
            && (o.min < near < o.max ==> Aligned(o, aim.value)
                                         && -o.step <= 2 * (aim.value - near) <= o.step)
  {
    var s := o.Step();
    var q, r := Divided(current - o.min, s);
    assert (q + 1) * s == q * s + s && (q - 1) * s == q * s - s;
    if current > o.min {
      if q < 1 {
        Scaled(q, 0, s);
      } else {
        Scaled(0, q - 1, s);
      }
    }
    Remainder(q + 1, s, 0);
    Remainder(q - 1, s, 0);
    if o.min < near < o.max {
      TrimIsNear(o, near);
    }
  }

  lemma TrimmedSlideKeepsOrder(o: Options, h: Handles, m: Slide)
    requires o.Valid() && Ordered(o, h) && IsTrimmed(o, m.to)
    ensures Ordered(o, Moved(o, h, m))
  {
    hide Trim, Excess;
    if LowerInBounds(o, h) {
      SlideKeepsOrder(o, h, m);
    } else {
      var v :| m.to == Trim(o, v);
      OnePastMaximum(o, h.lower);
      OnePastMaximum(o, h.upper);
      if Trim(o, v) > o.max {
        OnePastMaximum(o, v);
      }
      TwiceIsInBounds(o, v);
      TwiceIsInBounds(o, Trim(o, v));
    }
  }

  function ActAll(o: Options, h: Handles, actions: seq<Action>): Handles
    decreases |actions|
  {
    if actions == [] then h else ActAll(o, Acted(o, h, actions[0]), actions[1..])
  }

  /** Whatever keys are pressed and wherever the mouse is dragged, for any bounds and any step:
      handles that start in order never cross. */
  lemma {:induction false} HandlesNeverCross(o: Options, h: Handles, actions: seq<Action>)
    requires o.Valid() && Ordered(o, h)
    ensures Ordered(o, ActAll(o, h, actions))
    decreases |actions|
  {
    hide Aim, Moved, Ordered, Trim;
    if actions != [] {
      var a := actions[0];
      var current := Shown(o, if a.upper then h.upper else h.lower);
      AimIsTrimmed(o, current, a.input);
      var to := Aim(o, current, a.input);
      if to.Some? {
        TrimmedSlideKeepsOrder(o, h, Slide(a.upper, to.value, a.allowed));
      }
      HandlesNeverCross(o, Acted(o, h, a), actions[1..]);
    }
  }

  /** The slide relies on its callers here. Were it given values that are not trimmed, handles
      would stay in order over every run exactly when the lower one is not shown past the
      maximum at the start. */
  lemma ArbitraryTargetsKeepOrderExactlyInBounds(o: Options, h: Handles)
    requires o.Valid() && Ordered(o, h)
    ensures (forall ms :: Ordered(o, Run(o, h, ms))) <==> LowerInBounds(o, h)
  {
    if LowerInBounds(o, h) {
      forall ms ensures Ordered(o, Run(o, h, ms)) {
        RunKeepsOrder(o, h, ms);
      }
    } else {
      hide Moved, Ordered, LowerInBounds;
      var m := Slide(true, Shown(o, h.upper) + 1, true);
      CrossesPastMaximum(o, h, m);
      RunOfOne(o, h, m);
      assert !Ordered(o, Run(o, h, [m]));
    }
  }

  lemma CrossesPastMaximum(o: Options, h: Handles, m: Slide)
    requires o.Valid() && Ordered(o, h) && !LowerInBounds(o, h) && m == Slide(true, Shown(o, h.upper) + 1, true)
    ensures !Ordered(o, Moved(o, h, m))
  {
    assert Moved(o, h, m) == h.(upper := o.max);
  }

  lemma RunOfOne(o: Options, h: Handles, m: Slide)
    ensures Run(o, h, [m]) == Moved(o, h, m)
  {
    hide Moved;
    assert [m][1..] == [];
  }

  /** With a range of whole steps no handle is ever shown past the maximum. */
  lemma WholeStepsAreInBounds(o: Options, h: Handles)
    requires o.Valid() && Excess(o) == 0
    ensures LowerInBounds(o, h)
  {
    TrimBelowMax(o, h.lower);
  }

  class Range {
    const options: Options
    var values: array<int>

    constructor (options: Options, lower: int, upper: int)
      requires options.Valid()
      ensures this.options == options && fresh(values) && values.Length == 2
      ensures Now() == Handles(lower, upper)
    {
      this.options := options;
      values := new int[2](i => if i == 0 then lower else upper);
    }

    ghost function Now(): Handles
      reads this, values
      requires values.Length == 2
    {
      Handles(values[0], values[1])
    }

    method Value(index: nat) returns (v: int)
      requires values.Length == 2 && index < 2
      ensures v == Shown(options, values[index])
    {
      v := Trim(options, values[index]);
    }

    method SetValue(index: nat, newValue: int)
      requires values.Length == 2 && index < 2
      modifies values
      ensures values[..] == old(values[..])[index := Trim(options, newValue)]
    {
      values[index] := Trim(options, newValue);
    }

    // _slide; `allowed` is the answer of the callback
    method SlideTo(index: nat, to: int, allowed: bool)
      requires values.Length == 2 && index < 2
      modifies values
      ensures Now() == Moved(options, old(Now()), Slide(index == 1, to, allowed))
    {
      var newVal := to;
      var otherVal := Value(if index != 0 then 0 else 1);
      if (index == 0 && newVal > otherVal) || (index == 1 && newVal < otherVal) {
        newVal := otherVal;
      }
      var current := Value(index);
      if newVal != current {
        if allowed {
          SetValue(index, newVal);
          assert values[0] == values[..][0] && values[1] == values[..][1];
        }
      }
    }

    // A key press, or a move of the mouse with its handle
    method Act(index: nat, input: Input, allowed: bool)
      requires values.Length == 2 && index < 2
      modifies values
      ensures Now() == Acted(options, old(Now()), Action(index == 1, input, allowed))
    {
      hide Trim, Moved;
      var curVal := Value(index);
      var newVal := curVal;
      match input {
        case Home => newVal := options.min;
        case End => newVal := options.max;
        case Up =>
          if curVal == options.max {
            return;
          }
          newVal := Trim(options, curVal + options.step);
        case Down =>
          if curVal == options.min {
            return;
          }
          newVal := Trim(options, curVal - options.step);
        case Near(v) => newVal := Trim(options, v);
      }
      SlideTo(index, newVal, allowed);
    }
  }
}
