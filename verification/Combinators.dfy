/** What a chain of selector parts and combinators means, and what Sizzle's right-to-left
    search computes for it. */
module Combinators {
  import opened Wrappers
  import opened Forest

  datatype Combinator = Child | Adjacent | Descendant | General

  // A selector part stands for the elements it matches; `tag` says that its text is a bare
  // tag name, which sends it down the `nodeName` path. The search may also be given the
  // context element itself, when the selector starts with a combinator.
  datatype Part = Selector(nodes: set<Node>, tag: bool) | Context(node: Node)
  {
    function Nodes(): set<Node> {
      if Selector? then nodes else {node}
    }
  }

  // `A > B` is the step (A, Child) on the way from B. Steps are kept in reading order, so
  // the search takes the last one first.
  datatype Step = Step(part: Part, combinator: Combinator)

  function Last<T>(s: seq<T>): T
    requires s != []
  {
    s[|s| - 1]
  }

  function Init<T>(s: seq<T>): seq<T>
    requires s != []
  {
    s[..|s| - 1]
  }

  ghost predicate ValidSteps(doc: Document, steps: seq<Step>) {
    && (forall i | 0 <= i < |steps| :: steps[i].part.Nodes() <= doc.elements)
    && (forall i | 0 < i < |steps| :: steps[i].part.Selector?)
  }

  // ---------- The meaning of a chain (sections 8.1 to 8.3 of Selectors Level 3) ----------

  // The nearest preceding sibling that is an element
  function ElementBefore(doc: Document, x: Node): Option<Node>
    requires doc.Valid()
  {
    FirstMatch(doc, PreviousSibling, doc.Next(PreviousSibling, x), doc.elements)
  }

  predicate Related(doc: Document, c: Combinator, x: Node, y: Node)
    requires doc.Valid()
  {
    match c
    case Child => doc.Next(ParentNode, x) == Some(y)
    case Adjacent => ElementBefore(doc, x) == Some(y)
    case Descendant => Beyond(doc, ParentNode, x, y)
    case General => Beyond(doc, PreviousSibling, x, y)
  }

  // The leftmost element of a chain has to lie inside the context; the document holds every element.
  predicate Inside(doc: Document, root: Option<Node>, x: Node)
    requires doc.Valid()
  {
    root.None? || Beyond(doc, ParentNode, x, root.value)
  }

  // Some choice of elements, one for each part, links x to the left end of the chain.
  ghost predicate Matches(doc: Document, root: Option<Node>, x: Node, steps: seq<Step>)
    requires doc.Valid()
    decreases |steps|
  {
    if steps == [] then
      Inside(doc, root, x)
    else
      var step := Last(steps);
      exists y :: y in step.part.Nodes() && Related(doc, step.combinator, x, y) &&
                  if step.part.Context? then root.Some? else Matches(doc, root, y, Init(steps))
  }

  // ---------- The greedy search ----------

  function Nearest(doc: Document, c: Combinator, x: Node, wanted: set<Node>): Option<Node>
    requires doc.Valid()
  {
    match c
    case Child => Keep(doc.Next(ParentNode, x), wanted)
    case Adjacent => Keep(ElementBefore(doc, x), wanted)
    case Descendant => FirstMatch(doc, ParentNode, doc.Next(ParentNode, x), wanted)
    case General => FirstMatch(doc, PreviousSibling, doc.Next(PreviousSibling, x), wanted)
  }

  function Keep(x: Option<Node>, wanted: set<Node>): Option<Node> {
    if x.Some? && x.value in wanted then x else None
  }

  // An entry of `checkSet`: false, true, or a node
  datatype Mark = Miss | Pass | Hit(node: Node)

  function ToMark(part: Part, r: Option<Node>): Mark {
    match r
    case None => Miss
    case Some(y) => if part.Context? then Pass else Hit(y)
  }

  function Advance(doc: Document, m: Mark, step: Step): Mark
    requires doc.Valid()
  {
    match m
    case Hit(x) => ToMark(step.part, Nearest(doc, step.combinator, x, step.part.Nodes()))
    case _ => Miss
  }

  function Search(doc: Document, m: Mark, steps: seq<Step>): Mark
    requires doc.Valid()
    decreases |steps|
  {
    if steps == [] then m else Search(doc, Advance(doc, m, Last(steps)), Init(steps))
  }

  // The last test before a candidate is returned
  predicate Accepted(doc: Document, root: Option<Node>, m: Mark)
    requires doc.Valid()
  {
    match m
    case Miss => false
    case Pass => root.Some?
    case Hit(x) => x in doc.elements && Inside(doc, root, x)
  }

  lemma {:induction false} MissStays(doc: Document, steps: seq<Step>)
    requires doc.Valid()
    ensures Search(doc, Miss, steps) == Miss
    decreases |steps|
  {
    if steps != [] {
      MissStays(doc, Init(steps));
    }
  }

  lemma NearestIsRelated(doc: Document, c: Combinator, x: Node, wanted: set<Node>)
    requires doc.Valid()
    ensures var r := Nearest(doc, c, x, wanted);
            r.Some? ==> r.value in wanted && Related(doc, c, x, r.value)
  {
    FirstMatchIsBeyond(doc, ParentNode, x, wanted);
    FirstMatchIsBeyond(doc, PreviousSibling, x, wanted);
  }

  /** The search is sound for every chain: a candidate that survives has a real chain. */
  lemma {:induction false} SearchIsSound(doc: Document, root: Option<Node>, x: Node, steps: seq<Step>)
    requires doc.Valid() && x in doc.elements && ValidSteps(doc, steps)
    requires Accepted(doc, root, Search(doc, Hit(x), steps))
    ensures Matches(doc, root, x, steps)
    decreases |steps|
  {
    if steps != [] {
      var step := Last(steps);
      NearestIsRelated(doc, step.combinator, x, step.part.Nodes());
      match Nearest(doc, step.combinator, x, step.part.Nodes()) {
        case None => MissStays(doc, Init(steps));
        case Some(y) =>
          if step.part.Context? {
            assert Search(doc, Pass, Init(steps)) == Pass;
          } else {
            SearchIsSound(doc, root, y, Init(steps));
          }
      }
    }
  }

  // ---------- When taking the nearest match loses nothing ----------

  // Committing to the nearest match of `right` can lose a chain whose next combinator is `left`.
  predicate Clash(left: Combinator, right: Combinator) {
    (right == Descendant && left != Descendant) || (right == General && left == Adjacent)
  }

  predicate Orderly(cs: seq<Combinator>) {
    forall i | 0 <= i < |cs| - 1 :: !Clash(cs[i], cs[i + 1])
  }

  function CombinatorsOf(steps: seq<Step>): seq<Combinator> {
    seq(|steps|, i requires 0 <= i < |steps| => steps[i].combinator)
  }

  // How the element g chosen by the search may differ from the element t of a given chain
  datatype Lead = Same | Below | After

  ghost predicate Leads(doc: Document, lead: Lead, g: Node, t: Node)
    requires doc.Valid()
  {
    match lead
    case Same => g == t
    case Below => g == t || Beyond(doc, ParentNode, g, t)
    case After => g == t || Beyond(doc, PreviousSibling, g, t)
  }

  // The combinators that still follow such a choice safely
  predicate Harmless(lead: Lead, steps: seq<Step>) {
    steps != [] ==>
      match lead
      case Same => true
      case Below => Last(steps).combinator == Descendant
      case After => Last(steps).combinator != Adjacent
  }

  function LeadAfter(c: Combinator): Lead {
    match c
    case Descendant => Below
    case General => After
    case _ => Same
  }

  lemma NearestLeads(doc: Document, lead: Lead, g: Node, t: Node, step: Step, y: Node)
    requires doc.Valid() && Leads(doc, lead, g, t) && Harmless(lead, [step])
    requires y in step.part.Nodes() && Related(doc, step.combinator, t, y)
    ensures var r := Nearest(doc, step.combinator, g, step.part.Nodes());
            r.Some? && Leads(doc, LeadAfter(step.combinator), r.value, y)
  {
    var wanted := step.part.Nodes();
    if lead == After && g != t {
      BeyondHasSmallerRank(doc, PreviousSibling, g, t);
    }
    match step.combinator {
      case Child =>
      case Adjacent =>
      case Descendant =>
        if lead == Below && g != t {
          BeyondIsTransitive(doc, ParentNode, g, t, y);
        }
        FirstMatchIsNearest(doc, ParentNode, g, wanted, y);
      case General =>
        if lead == After && g != t {
          BeyondIsTransitive(doc, PreviousSibling, g, t, y);
        }
        FirstMatchIsNearest(doc, PreviousSibling, g, wanted, y);
    }
  }

  lemma InsideFollows(doc: Document, root: Option<Node>, lead: Lead, g: Node, t: Node)
    requires doc.Valid() && Leads(doc, lead, g, t) && Inside(doc, root, t)
    ensures Inside(doc, root, g)
  {
    if root.Some? && g != t {
      if lead == Below {
        BeyondIsTransitive(doc, ParentNode, g, t, root.value);
      } else {
        BeyondHasSmallerRank(doc, PreviousSibling, g, t);
      }
    }
  }

  lemma {:induction false} SearchKeepsUp(doc: Document, root: Option<Node>, lead: Lead, g: Node, t: Node, steps: seq<Step>)
    requires doc.Valid() && g in doc.elements && ValidSteps(doc, steps)
    requires Leads(doc, lead, g, t) && Harmless(lead, steps)
    requires Orderly(CombinatorsOf(steps)) && Matches(doc, root, t, steps)
    ensures Accepted(doc, root, Search(doc, Hit(g), steps))
    decreases |steps|
  {
    if steps == [] {
      InsideFollows(doc, root, lead, g, t);
    } else {
      var step, rest := Last(steps), Init(steps);
      var y :| y in step.part.Nodes() && Related(doc, step.combinator, t, y) &&
               if step.part.Context? then root.Some? else Matches(doc, root, y, rest);
      NearestLeads(doc, lead, g, t, step, y);
      var r := Nearest(doc, step.combinator, g, step.part.Nodes()).value;
      NearestIsRelated(doc, step.combinator, g, step.part.Nodes());
      if step.part.Context? {
        assert Search(doc, Pass, rest) == Pass;
      } else {
        var cs := CombinatorsOf(steps);
        assert CombinatorsOf(rest) == cs[..|rest|];
        if rest != [] {
          assert !Clash(cs[|rest| - 1], cs[|rest|]);
        }
        SearchKeepsUp(doc, root, LeadAfter(step.combinator), r, y, rest);
      }
    }
  }

  /** On an orderly chain the search returns exactly the elements that the chain selects. */
  lemma SearchIsExactOnOrderlyChains(doc: Document, root: Option<Node>, x: Node, steps: seq<Step>)
    requires doc.Valid() && x in doc.elements && ValidSteps(doc, steps)
    requires Orderly(CombinatorsOf(steps))
    ensures Accepted(doc, root, Search(doc, Hit(x), steps)) <==> Matches(doc, root, x, steps)
  {
    if Matches(doc, root, x, steps) {
      SearchKeepsUp(doc, root, Same, x, x, steps);
    } else if Accepted(doc, root, Search(doc, Hit(x), steps)) {
      SearchIsSound(doc, root, x, steps);
    }
  }
}
