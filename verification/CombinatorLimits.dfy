/** The search finds every match of a chain of combinators, in every document, exactly when
    the chain is orderly. The converse half builds, for any other chain, a document shaped
    like a staircase and parts on which the nearest match is the wrong one. */
module CombinatorLimits {
  import opened Wrappers
  import opened Forest
  import opened Combinators

  // `levels` rows of `width` siblings, each row below the last node of the row above
  function Staircase(levels: nat, width: nat): Document {
    var nodes := set d, k | 1 <= d <= levels && 0 <= k < width :: Node(d, k);
    Document(
      map x <- nodes :: Up(width, x),
      map x <- nodes | x.index > 0 :: Back(x),
      nodes)
  }

  function Up(width: nat, x: Node): Node {
    if x.depth <= 1 || width == 0 then Node(0, 0) else Node(x.depth - 1, width - 1)
  }

  function Back(x: Node): Node {
    if x.index == 0 then x else Node(x.depth, x.index - 1)
  }

  function Hop(width: nat, c: Combinator, x: Node): Node {
    match c
    case Child => Up(width, x)
    case Descendant => Up(width, x)
    case Adjacent => Back(x)
    case General => Back(x)
  }

  // x is far enough from the edges for a chain of n more combinators
  ghost predicate Room(levels: nat, width: nat, x: Node, n: nat) {
    x.depth <= levels && 3 * n < x.depth && 3 * n <= x.index < width
  }

  lemma StaircaseIsValid(levels: nat, width: nat)
    ensures Staircase(levels, width).Valid()
  {
  }

  lemma HopIsRelated(levels: nat, width: nat, c: Combinator, x: Node)
    requires Room(levels, width, x, 1)
    ensures var doc := Staircase(levels, width);
            doc.Valid() && var y := Hop(width, c, x); y in doc.elements && Related(doc, c, x, y)
  {
    var doc := Staircase(levels, width);
    assert x in doc.elements && Back(x) in doc.elements && Up(width, x) in doc.elements;
  }

  // Parts that match one node each, along the way of shortest hops
  function Straight(width: nat, cs: seq<Combinator>, x: Node): seq<Step>
    decreases |cs|
  {
    if cs == [] then [] else
      var y := Hop(width, Last(cs), x);
      Straight(width, Init(cs), y) + [Step(Selector({y}, false), Last(cs))]
  }

  // The same, except at the first clash met, where both the next and the next but one
  // node match, and only the farther one leads on.
  function Trap(width: nat, cs: seq<Combinator>, x: Node): seq<Step>
    requires |cs| >= 2
    decreases |cs|
  {
    var right := Last(cs);
    var y := Hop(width, right, x);
    if Clash(cs[|cs| - 2], right) then
      var far := Hop(width, right, y);
      var z := Hop(width, cs[|cs| - 2], far);
      Straight(width, cs[..|cs| - 2], z) +
      [Step(Selector({z}, false), cs[|cs| - 2]), Step(Selector({y, far}, false), right)]
    else if |cs| == 2 then
      Straight(width, cs, x)
    else
      Trap(width, Init(cs), y) + [Step(Selector({y}, false), right)]
  }

  lemma {:induction false} StraightMatches(levels: nat, width: nat, cs: seq<Combinator>, x: Node)
    requires Room(levels, width, x, |cs|)
    ensures Staircase(levels, width).Valid()
    ensures Matches(Staircase(levels, width), None, x, Straight(width, cs, x))
    ensures ValidSteps(Staircase(levels, width), Straight(width, cs, x))
    ensures CombinatorsOf(Straight(width, cs, x)) == cs
    decreases |cs|
  {
    StaircaseIsValid(levels, width);
    if cs != [] {
      var y := Hop(width, Last(cs), x);
      HopIsRelated(levels, width, Last(cs), x);
      StraightMatches(levels, width, Init(cs), y);
      Extend(Staircase(levels, width), cs, x, y, {y}, Straight(width, Init(cs), y));
    }
  }

  // One more step on the right
  lemma Extend(doc: Document, cs: seq<Combinator>, x: Node, y: Node, wanted: set<Node>, steps: seq<Step>)
    requires doc.Valid() && cs != [] && y in wanted && wanted <= doc.elements && Related(doc, Last(cs), x, y)
    requires Matches(doc, None, y, steps) && ValidSteps(doc, steps) && CombinatorsOf(steps) == Init(cs)
    ensures var all := steps + [Step(Selector(wanted, false), Last(cs))];
            Matches(doc, None, x, all) && ValidSteps(doc, all) && CombinatorsOf(all) == cs && Init(all) == steps
  {
    var all := steps + [Step(Selector(wanted, false), Last(cs))];
    assert Init(all) == steps && Last(all) == Step(Selector(wanted, false), Last(cs));
    assert CombinatorsOf(all) == Init(cs) + [Last(cs)] == cs;
  }

  lemma {:induction false} SiblingsStayOnTheirLevel(levels: nat, width: nat, x: Node, wanted: set<Node>)
    requires Staircase(levels, width).Valid()
    requires forall y <- wanted :: y.depth != x.depth
    ensures FirstMatch(Staircase(levels, width), PreviousSibling,
                       Staircase(levels, width).Next(PreviousSibling, x), wanted) == None
    decreases x.index
  {
    match Staircase(levels, width).Next(PreviousSibling, x)
    case None =>
    case Some(y) => SiblingsStayOnTheirLevel(levels, width, y, wanted);
  }

  // At a clash the search takes y and then finds nothing.
  lemma ClashMisses(levels: nat, width: nat, left: Combinator, right: Combinator, x: Node)
    requires Room(levels, width, x, 2) && Clash(left, right)
    ensures var doc, y := Staircase(levels, width), Hop(width, right, x);
            var far := Hop(width, right, y);
            var z := Hop(width, left, far);
            && doc.Valid() && Nearest(doc, right, x, {y, far}) == Some(y)
            && Nearest(doc, left, y, {z}) == None
            && {y, far, z} <= doc.elements
            && Related(doc, right, x, far) && Related(doc, left, far, z)
            && Room(levels, width, z, 0)
  {
    var doc, y := Staircase(levels, width), Hop(width, right, x);
    var far := Hop(width, right, y);
    var z := Hop(width, left, far);
    StaircaseIsValid(levels, width);
    HopIsRelated(levels, width, right, x);
    HopIsRelated(levels, width, right, y);
    HopIsRelated(levels, width, left, far);
    if left == General {
      SiblingsStayOnTheirLevel(levels, width, y, {z});
    }
  }

  lemma SearchTakesLast(doc: Document, m: Mark, steps: seq<Step>, step: Step)
    requires doc.Valid()
    ensures Search(doc, m, steps + [step]) == Search(doc, Advance(doc, m, step), steps)
  {
    assert Init(steps + [step]) == steps;
  }

  lemma ClashSprings(levels: nat, width: nat, cs: seq<Combinator>, x: Node)
    requires |cs| >= 2 && Room(levels, width, x, |cs|) && Clash(cs[|cs| - 2], Last(cs))
    ensures Springs(levels, width, cs, x)
  {
    hide Matches, Search, Related, Nearest, ValidSteps, Staircase;
    var doc, left, right := Staircase(levels, width), cs[|cs| - 2], Last(cs);
    var y := Hop(width, right, x);
    var far := Hop(width, right, y);
    var z := Hop(width, left, far);
    ClashMisses(levels, width, left, right, x);
    var rest := cs[..|cs| - 2];
    StraightMatches(levels, width, rest, z);
    var steps := Straight(width, rest, z);
    ClashExtends(doc, cs, x, y, far, z, steps);
    assert Trap(width, cs, x)
        == steps + [Step(Selector({z}, false), left), Step(Selector({y, far}, false), right)];
  }

  lemma ClashExtends(doc: Document, cs: seq<Combinator>, x: Node, y: Node, far: Node, z: Node, steps: seq<Step>)
    requires doc.Valid() && |cs| >= 2 && {y, far, z} <= doc.elements
    requires Related(doc, Last(cs), x, far) && Related(doc, cs[|cs| - 2], far, z)
    requires Nearest(doc, Last(cs), x, {y, far}) == Some(y) && Nearest(doc, cs[|cs| - 2], y, {z}) == None
    requires Matches(doc, None, z, steps) && ValidSteps(doc, steps) && CombinatorsOf(steps) == cs[..|cs| - 2]
    ensures var all := steps + [Step(Selector({z}, false), cs[|cs| - 2]), Step(Selector({y, far}, false), Last(cs))];
            && Matches(doc, None, x, all) && ValidSteps(doc, all) && CombinatorsOf(all) == cs
            && Search(doc, Hit(x), all) == Miss
  {
    var step1, step2 := Step(Selector({z}, false), cs[|cs| - 2]), Step(Selector({y, far}, false), Last(cs));
    assert Init(Init(cs)) == cs[..|cs| - 2];
    Extend(doc, Init(cs), far, z, {z}, steps);
    Extend(doc, cs, x, far, {y, far}, steps + [step1]);
    assert steps + [step1, step2] == (steps + [step1]) + [step2];
    SearchTakesLast(doc, Hit(x), steps + [step1], step2);
    SearchTakesLast(doc, Hit(y), steps, step1);
    MissStays(doc, steps);
  }

  // The trap is a chain of the given combinators that selects x and that the search loses.
  ghost predicate Springs(levels: nat, width: nat, cs: seq<Combinator>, x: Node)
    requires |cs| >= 2
  {
    var doc, steps := Staircase(levels, width), Trap(width, cs, x);
    && doc.Valid() && ValidSteps(doc, steps) && CombinatorsOf(steps) == cs
    && Matches(doc, None, x, steps) && Search(doc, Hit(x), steps) == Miss
  }

  lemma {:induction false} TrapSprings(levels: nat, width: nat, cs: seq<Combinator>, x: Node)
    requires Room(levels, width, x, |cs|) && !Orderly(cs)
    ensures Springs(levels, width, cs, x)
    decreases |cs|
  {
    hide Matches, Search, Related, Nearest, ValidSteps, Staircase;
    var right := Last(cs);
    if Clash(cs[|cs| - 2], right) {
      ClashSprings(levels, width, cs, x);
    } else {
      assert !Orderly(Init(cs));
      var doc, y := Staircase(levels, width), Hop(width, right, x);
      HopIsRelated(levels, width, right, x);
      TrapSprings(levels, width, Init(cs), y);
      var steps := Trap(width, Init(cs), y);
      Extend(doc, cs, x, y, {y}, steps);
      NearestOfOne(doc, right, x, y);
      SearchTakesLast(doc, Hit(x), steps, Step(Selector({y}, false), right));
    }
  }

  lemma NearestOfOne(doc: Document, c: Combinator, x: Node, y: Node)
    requires doc.Valid() && y in doc.elements && Related(doc, c, x, y)
    ensures Nearest(doc, c, x, {y}) == Some(y)
  {
    match c
    case Child =>
    case Adjacent =>
    case Descendant => FirstMatchIsNearest(doc, ParentNode, x, {y}, y);
    case General => FirstMatchIsNearest(doc, PreviousSibling, x, {y}, y);
  }

  // Whatever the document, the context and the parts, the search loses no match.
  ghost predicate FindsEveryMatch(cs: seq<Combinator>) {
    forall doc: Document, root: Option<Node>, x: Node, steps: seq<Step> |
      && doc.Valid() && x in doc.elements && ValidSteps(doc, steps)
      && CombinatorsOf(steps) == cs && Matches(doc, root, x, steps) ::
      Accepted(doc, root, Search(doc, Hit(x), steps))
  }

  /** The order of the combinators decides whether the search can lose a match. */
  lemma CompleteExactlyWhenOrderly(cs: seq<Combinator>)
    ensures FindsEveryMatch(cs) <==> Orderly(cs)
  {
    if Orderly(cs) {
      forall doc: Document, root: Option<Node>, x: Node, steps: seq<Step> |
        && doc.Valid() && x in doc.elements && ValidSteps(doc, steps)
        && CombinatorsOf(steps) == cs && Matches(doc, root, x, steps)
        ensures Accepted(doc, root, Search(doc, Hit(x), steps))
      {
        SearchIsExactOnOrderlyChains(doc, root, x, steps);
      }
    } else {
      var size := 3 * |cs| + 1;
      var x := Node(size, size - 1);
      TrapSprings(size, size, cs, x);
      assert x in Staircase(size, size).elements;
      assert !Accepted(Staircase(size, size), None, Search(Staircase(size, size), Hit(x), Trap(size, cs, x)));
    }
  }
}
