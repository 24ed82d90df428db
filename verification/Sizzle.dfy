/** Sizzle's evaluation loop: the candidates sit in an array that every combinator
    overwrites in place, and the ancestor and sibling walks leave marks on the elements
    they pass so that later walks can stop there. */
module Sizzle {
  import opened Wrappers
  import opened Forest
  import opened Combinators

  class Engine {
    const doc: Document
    // the counter that names a pass
    var done: nat
    // two properties written onto elements: the last pass that met the element, and which
    // candidate that pass was walking from
    var sizcache: map<Node, nat>
    var sizset: map<Node, nat>

    ghost predicate Valid()
      reads this
    {
      && doc.Valid()
      && sizcache.Keys <= doc.elements && sizcache.Keys <= sizset.Keys
      && forall x <- sizcache :: sizcache[x] < done
    }

    constructor (doc: Document)
      requires doc.Valid()
      ensures Valid() && this.doc == doc
    {
      this.doc := doc;
      done, sizcache, sizset := 0, map[], map[];
    }

    // A mark left by pass `name` for candidate k < i is good when the answer stored for k
    // is the answer of the plain walk from the marked element.
    ghost predicate GoodMarks(name: nat, dir: Direction, part: Part, answers: seq<Mark>, i: nat)
      reads this
      requires doc.Valid()
    {
      forall x <- sizcache | sizcache[x] == name ::
        && x in sizset && x in doc.elements && sizset[x] < i && i <= |answers|
        && answers[sizset[x]] == ToMark(part, FirstMatch(doc, dir, Some(x), part.Nodes()))
    }

    ghost function MarkedElements(name: nat): set<Node>
      reads this
    {
      set x <- sizcache | sizcache[x] == name
    }

    ghost predicate Tidy()
      reads this
    {
      doc.Valid() && sizcache.Keys <= doc.elements && sizcache.Keys <= sizset.Keys
    }

    // Every mark is one of the old ones, or one that pass `name` has set for candidate i on an
    // element from which the plain walk leads to `goal`.
    ghost predicate Grown(cache0: map<Node, nat>, set0: map<Node, nat>, name: nat, dir: Direction,
                          wanted: set<Node>, i: nat, goal: Option<Node>)
      requires doc.Valid()
      reads this
    {
      forall x <- sizcache :: x in sizset &&
        (Kept(cache0, set0, x) ||
         (sizcache[x] == name && sizset[x] == i && FirstMatch(doc, dir, Some(x), wanted) == goal))
    }

    ghost predicate Kept(cache0: map<Node, nat>, set0: map<Node, nat>, x: Node)
      requires x in sizcache && x in sizset
      reads this
    {
      x in cache0 && sizcache[x] == cache0[x] && x in set0 && sizset[x] == set0[x]
    }

    method Leave(x: Node, name: nat, i: nat)
      requires Tidy() && x in doc.elements && !(x in sizcache && sizcache[x] == name)
      modifies this`sizcache, this`sizset
      ensures Tidy() && sizcache == old(sizcache)[x := name] && sizset == old(sizset)[x := i]
      ensures |MarkedElements(name)| == |old(MarkedElements(name))| + 1
    {
      ghost var before := MarkedElements(name);
      sizcache, sizset := sizcache[x := name], sizset[x := i];
      assert MarkedElements(name) == before + {x};
    }

    // One walk: from `start` in direction dir. Every element met for the first time in this
    // pass is marked and examined; `visits` counts them.
    method Walk(dir: Direction, part: Part, name: nat, answers: seq<Mark>, i: nat, start: Node, isXML: bool)
      returns (answer: Mark, ghost visits: nat)
      requires Tidy() && GoodMarks(name, dir, part, answers, i) && part.Nodes() <= doc.elements
      modifies this`sizcache, this`sizset
      ensures Tidy()
      ensures answer == ToMark(part, FirstMatch(doc, dir, doc.Next(dir, start), part.Nodes()))
      ensures Grown(old(sizcache), old(sizset), name, dir, part.Nodes(), i,
                    FirstMatch(doc, dir, doc.Next(dir, start), part.Nodes()))
      ensures !isXML ==> visits + |old(MarkedElements(name))| == |MarkedElements(name)|
    {
      hide FirstMatch;
      var wanted := part.Nodes();
      var elem := doc.Next(dir, start);
      ghost var goal := FirstMatch(doc, dir, elem, wanted);
      ghost var cache0, set0 := sizcache, sizset;
      answer, visits := Miss, 0;
      while elem.Some?
        invariant Tidy() && answer == Miss && FirstMatch(doc, dir, elem, wanted) == goal
        invariant Grown(cache0, set0, name, dir, wanted, i, goal)
        invariant forall x <- sizcache | !Kept(cache0, set0, x) :: OptionRank(dir, elem) <= Rank(dir, x)
        invariant !isXML ==> visits + |old(MarkedElements(name))| == |MarkedElements(name)|
        decreases OptionRank(dir, elem)
      {
        var x := elem.value;
        WalkTurn(doc, dir, x, wanted);
        if x in sizcache && sizcache[x] == name {
          assert Kept(cache0, set0, x);
          answer := answers[sizset[x]];
          return;
        }
        if x in doc.elements {
          if !isXML {
            Leave(x, name, i);
            visits := visits + 1;
          }
          if x in wanted {
            answer := ToMark(part, elem);
            return;
          }
        }
        elem := doc.Next(dir, x);
      }
      WalkEnds(doc, dir, wanted);
    }

    // One entry of the array: false stays, `true` has no links to follow, a node is walked from.
    method WalkEntry(dir: Direction, part: Part, name: nat, checkSet: array<Mark>, i: nat, isXML: bool)
      returns (ghost visits: nat)
      requires i < checkSet.Length && Tidy() && GoodMarks(name, dir, part, checkSet[..], i)
      requires part.Nodes() <= doc.elements && forall x <- sizcache :: sizcache[x] <= name
      modifies this`sizcache, this`sizset, checkSet
      ensures Tidy() && GoodMarks(name, dir, part, checkSet[..], i + 1)
      ensures forall x <- sizcache :: sizcache[x] <= name
      ensures checkSet[..] == old(checkSet[..])[i := Advance(doc, old(checkSet[i]), WalkStep(dir, part))]
      ensures !isXML ==> visits + |old(MarkedElements(name))| == |MarkedElements(name)|
    {
      hide FirstMatch;
      visits := 0;
      match checkSet[i] {
        case Miss =>
        case Pass => checkSet[i] := Miss;
        case Hit(start) =>
          ghost var before := checkSet[..];
          var answer;
          answer, visits := Walk(dir, part, name, checkSet[..], i, start, isXML);
          checkSet[i] := answer;
          assert checkSet[..] == before[i := answer];
      }
    }

    // The memoised pass behind ` ` and `~`: every entry becomes the answer of its own plain
    // walk, and over the whole pass no element is examined twice.
    method WalkAll(dir: Direction, part: Part, checkSet: array<Mark>, isXML: bool) returns (ghost visits: nat)
      requires Valid() && part.Nodes() <= doc.elements
      modifies this, checkSet
      ensures Valid()
      ensures forall k | 0 <= k < checkSet.Length ::
                checkSet[k] == Advance(doc, old(checkSet[k]), WalkStep(dir, part))
      ensures !isXML ==> visits <= |doc.elements|
    {
      hide FirstMatch, Advance;
      var name := done;
      done := done + 1;
      visits := 0;
      assert MarkedElements(name) == {};
      var l := checkSet.Length;
      for i := 0 to l
        invariant Tidy() && done == name + 1 && forall x <- sizcache :: sizcache[x] <= name
        invariant GoodMarks(name, dir, part, checkSet[..], i)
        invariant forall k | 0 <= k < i :: checkSet[k] == Advance(doc, old(checkSet[k]), WalkStep(dir, part))
        invariant forall k | i <= k < l :: checkSet[k] == old(checkSet[k])
        invariant !isXML ==> visits == |MarkedElements(name)|
      {
        ghost var before := checkSet[..];
        ghost var n := WalkEntry(dir, part, name, checkSet, i, isXML);
        assert forall k | 0 <= k < l && k != i :: checkSet[k] == before[k];
        visits := visits + n;
      }
      SubsetSize(MarkedElements(name), doc.elements);
    }

    // Entries between two combinators: false, or an element
    ghost predicate Clean(marks: seq<Mark>) {
      forall k | 0 <= k < |marks| :: marks[k].Miss? || (marks[k].Hit? && marks[k].node in doc.elements)
    }

    // Sizzle.filter on an array, in place
    method FilterInPlace(part: Part, checkSet: array<Mark>)
      requires part.Selector?
      modifies checkSet
      ensures forall k | 0 <= k < checkSet.Length ::
                checkSet[k] == if old(checkSet[k]).Hit? && old(checkSet[k]).node !in part.nodes
                               then Miss else old(checkSet[k])
    {
      for i := 0 to checkSet.Length
        invariant forall k | i <= k < checkSet.Length :: checkSet[k] == old(checkSet[k])
        invariant forall k | 0 <= k < i ::
                    checkSet[k] == if old(checkSet[k]).Hit? && old(checkSet[k]).node !in part.nodes
                                   then Miss else old(checkSet[k])
      {
        if checkSet[i].Hit? && checkSet[i].node !in part.nodes {
          checkSet[i] := Miss;
        }
      }
    }

    method ChildAll(part: Part, checkSet: array<Mark>)
      requires Valid() && part.Nodes() <= doc.elements && Clean(checkSet[..])
      modifies checkSet
      ensures forall k | 0 <= k < checkSet.Length ::
                checkSet[k] == Advance(doc, old(checkSet[k]), Step(part, Child))
    {
      if part.Selector? && part.tag {
        for i := 0 to checkSet.Length
          invariant forall k | i <= k < checkSet.Length :: checkSet[k] == old(checkSet[k])
          invariant forall k | 0 <= k < i ::
                      checkSet[k] == Advance(doc, old(checkSet[k]), Step(part, Child))
        {
          if checkSet[i].Hit? {
            assert checkSet[i] == old(checkSet[..])[i];
            var parent := doc.parent[checkSet[i].node];
            checkSet[i] := if parent in part.nodes then Hit(parent) else Miss;
          }
        }
      } else {
        for i := 0 to checkSet.Length
          invariant forall k | i <= k < checkSet.Length :: checkSet[k] == old(checkSet[k])
          invariant forall k | 0 <= k < i && old(checkSet[k]).Miss? :: checkSet[k] == Miss
          invariant forall k | 0 <= k < i && old(checkSet[k]).Hit? ::
                      old(checkSet[k]).node in doc.parent &&
                      var parent := doc.parent[old(checkSet[k]).node];
                      checkSet[k] == if part.Selector? then Hit(parent)
                                     else if parent == part.node then Pass else Miss
        {
          if checkSet[i].Hit? {
            assert checkSet[i] == old(checkSet[..])[i];
            var parent := doc.parent[checkSet[i].node];
            checkSet[i] := if part.Selector? then Hit(parent)
                           else if parent == part.node then Pass else Miss;
          }
        }
        assert forall k | 0 <= k < checkSet.Length :: old(checkSet[..])[k] == old(checkSet[k]);
        if part.Selector? {
          FilterInPlace(part, checkSet);
        }
      }
    }

    // The inner loop of `+`: back over siblings that are no elements
    method PreviousElement(x: Node) returns (elem: Option<Node>)
      requires doc.Valid()
      ensures elem == ElementBefore(doc, x)
    {
      elem := doc.Next(PreviousSibling, x);
      while elem.Some? && elem.value !in doc.elements
        invariant FirstMatch(doc, PreviousSibling, elem, doc.elements) == ElementBefore(doc, x)
        decreases OptionRank(PreviousSibling, elem)
      {
        elem := doc.Next(PreviousSibling, elem.value);
      }
    }

    method AdjacentAll(part: Part, checkSet: array<Mark>)
      requires Valid() && part.Nodes() <= doc.elements && Clean(checkSet[..])
      modifies checkSet
      ensures forall k | 0 <= k < checkSet.Length ::
                checkSet[k] == Advance(doc, old(checkSet[k]), Step(part, Adjacent))
    {
      var notTag := part.Selector? && !part.tag;
      for i := 0 to checkSet.Length
        invariant forall k | i <= k < checkSet.Length :: checkSet[k] == old(checkSet[k])
        invariant forall k | 0 <= k < i && old(checkSet[k]).Miss? :: checkSet[k] == Miss
        invariant forall k | 0 <= k < i && old(checkSet[k]).Hit? ::
                    var elem := ElementBefore(doc, old(checkSet[k]).node);
                    checkSet[k] == if notTag then (if elem.Some? then Hit(elem.value) else Miss)
                                   else ToMark(part, Keep(elem, part.Nodes()))
      {
        if checkSet[i].Hit? {
          var elem := PreviousElement(checkSet[i].node);
          if notTag || (part.Selector? && elem.Some? && elem.value in part.nodes) {
            checkSet[i] := if elem.Some? then Hit(elem.value) else Miss;
          } else {
            checkSet[i] := if part.Context? && elem == Some(part.node) then Pass else Miss;
          }
        }
      }
      assert forall k | 0 <= k < checkSet.Length :: old(checkSet[..])[k] == old(checkSet[k]);
      if notTag {
        FilterInPlace(part, checkSet);
      }
    }

    // The table of relations, by combinator
    method Relative(step: Step, checkSet: array<Mark>, isXML: bool)
      requires Valid() && step.part.Nodes() <= doc.elements && Clean(checkSet[..])
      modifies this, checkSet
      ensures Valid()
      ensures forall k | 0 <= k < checkSet.Length :: checkSet[k] == Advance(doc, old(checkSet[k]), step)
      ensures step.part.Selector? ==> Clean(checkSet[..])
    {
      match step.combinator {
        case Child => ChildAll(step.part, checkSet);
        case Adjacent => AdjacentAll(step.part, checkSet);
        case Descendant =>
          ghost var _ := WalkAll(ParentNode, step.part, checkSet, isXML);
        case General =>
          ghost var _ := WalkAll(PreviousSibling, step.part, checkSet, isXML);
      }
    }

    // The loop over the chain, from right to left
    method SearchAll(found: seq<Node>, steps: seq<Step>, isXML: bool) returns (checkSet: array<Mark>)
      requires Valid() && ValidSteps(doc, steps) && forall x <- found :: x in doc.elements
      modifies this
      ensures Valid() && fresh(checkSet) && checkSet.Length == |found|
      ensures forall k | 0 <= k < |found| :: checkSet[k] == Search(doc, Hit(found[k]), steps)
    {
      checkSet := new Mark[|found|](i requires 0 <= i < |found| => Hit(found[i]));
      var parts := steps;
      while parts != []
        invariant Valid() && parts <= steps
        invariant parts != [] ==> Clean(checkSet[..])
        invariant forall k | 0 <= k < |found| ::
                    Search(doc, checkSet[k], parts) == Search(doc, Hit(found[k]), steps)
        decreases |parts|
      {
        var step := Last(parts);
        parts := Init(parts);
        Relative(step, checkSet, isXML);
      }
    }

    // `found` is what the rightmost part selects, `steps` the rest of the chain.
    // The answer is made of the candidates that the chain selects, all of them and in their order
    // if the chain is orderly. The candidates of a selector of one part are returned as they are:
    // `find` has looked for them inside the context, and where they lie there they match.
    method Select(found: seq<Node>, steps: seq<Step>, root: Option<Node>, isXML: bool) returns (results: seq<Node>)
      requires Valid() && ValidSteps(doc, steps) && forall x <- found :: x in doc.elements
      modifies this
      ensures Valid()
      ensures steps == [] ==> results == found
      ensures (forall x <- found :: steps == [] ==> Inside(doc, root, x)) ==>
                && (Orderly(CombinatorsOf(steps)) ==> results == Chosen(doc, root, found, steps))
                && forall x <- results :: x in found && Matches(doc, root, x, steps)
      ensures results == Survivors(doc, root, found, steps)
    {
      hide Chosen, Matches, Inside, Orderly, Search, Accepted;
      if forall x <- found :: steps == [] ==> Inside(doc, root, x) {
        SurvivorsAreTheMatches(doc, root, found, steps);
      }
      if steps == [] {
        return found;
      }
      var checkSet := SearchAll(found, steps, isXML);
      results := [];
      for i := 0 to |found|
        invariant results == Survivors(doc, root, found[..i], steps)
      {
        if Accepted(doc, root, checkSet[i]) {
          results := results + [found[i]];
        }
        assert found[..i + 1][..i] == found[..i];
      }
      assert found[..|found|] == found;
    }
  }

  function Survivors(doc: Document, root: Option<Node>, found: seq<Node>, steps: seq<Step>): seq<Node>
    requires doc.Valid()
    decreases |found|
  {
    if steps == [] || found == [] then found else
      var rest := Survivors(doc, root, Init(found), steps);
      if Accepted(doc, root, Search(doc, Hit(Last(found)), steps)) then rest + [Last(found)] else rest
  }

  // The candidates that the chain selects, in their order
  ghost function Chosen(doc: Document, root: Option<Node>, found: seq<Node>, steps: seq<Step>): seq<Node>
    requires doc.Valid()
    decreases |found|
  {
    if found == [] then [] else
      Chosen(doc, root, Init(found), steps) +
      if Matches(doc, root, Last(found), steps) then [Last(found)] else []
  }

  /** For an orderly chain the evaluation returns, in their order, exactly the candidates that
      the chain selects. For any chain it returns only such candidates. */
  lemma {:induction false} SurvivorsAreTheMatches(
      doc: Document, root: Option<Node>, found: seq<Node>, steps: seq<Step>)
    requires doc.Valid() && ValidSteps(doc, steps) && forall x <- found :: x in doc.elements
    requires forall x <- found :: steps == [] ==> Inside(doc, root, x)
    ensures Orderly(CombinatorsOf(steps)) ==> Survivors(doc, root, found, steps) == Chosen(doc, root, found, steps)
    ensures forall x <- Survivors(doc, root, found, steps) :: x in found && Matches(doc, root, x, steps)
    ensures steps == [] ==> Survivors(doc, root, found, steps) == found
    decreases |found|
  {
    hide Orderly, Matches, Inside, Accepted, Search;
    if found != [] {
      var x := Last(found);
      assert x in found;
      SurvivorsAreTheMatches(doc, root, Init(found), steps);
      AcceptedIsMatch(doc, root, x, steps);
      assert found == Init(found) + [x];
    }
  }

  lemma AcceptedIsMatch(doc: Document, root: Option<Node>, x: Node, steps: seq<Step>)
    requires doc.Valid() && x in doc.elements && ValidSteps(doc, steps)
    ensures var accepted := Accepted(doc, root, Search(doc, Hit(x), steps));
            && (accepted ==> Matches(doc, root, x, steps))
            && (Orderly(CombinatorsOf(steps)) ==> (accepted <==> Matches(doc, root, x, steps)))
            && (steps == [] ==> (accepted <==> Inside(doc, root, x)))
  {
    hide Orderly, Matches, Inside;
    if Accepted(doc, root, Search(doc, Hit(x), steps)) {
      SearchIsSound(doc, root, x, steps);
    }
    if Orderly(CombinatorsOf(steps)) {
      SearchIsExactOnOrderlyChains(doc, root, x, steps);
    }
  }

  lemma WalkTurn(doc: Document, dir: Direction, x: Node, wanted: set<Node>)
    requires doc.Valid()
    ensures FirstMatch(doc, dir, Some(x), wanted)
         == if x in wanted then Some(x) else FirstMatch(doc, dir, doc.Next(dir, x), wanted)
  {
  }

  lemma WalkEnds(doc: Document, dir: Direction, wanted: set<Node>)
    requires doc.Valid()
    ensures FirstMatch(doc, dir, None, wanted) == None
  {
  }

  function WalkStep(dir: Direction, part: Part): Step {
    Step(part, if dir == ParentNode then Descendant else General)
  }
}
