/** The part of a document that Sizzle's combinators look at: which nodes are elements,
    and the `parentNode` and `previousSibling` links between nodes. */
module Forest {
  import opened Wrappers

  // A node is named by its depth and by a number that grows along a list of siblings.
  datatype Node = Node(depth: nat, index: nat)

  datatype Direction = ParentNode | PreviousSibling

  datatype Document = Document(
    parent: map<Node, Node>,
    previous: map<Node, Node>,
    elements: set<Node>)
  {
    // Links go up one level or back along the siblings of one parent, and an element
    // always hangs below some node (the root element below the document node).
    ghost predicate Valid() {
      && (forall x <- parent :: parent[x].depth < x.depth)
      && (forall x <- previous ::
            previous[x].depth == x.depth && previous[x].index < x.index && SameParent(x, previous[x]))
      && (forall x <- elements :: x in parent)
    }

    ghost predicate SameParent(x: Node, y: Node) {
      (x in parent <==> y in parent) && (x in parent ==> parent[x] == parent[y])
    }

    function Next(dir: Direction, x: Node): Option<Node> {
      match dir
      case ParentNode => if x in parent then Some(parent[x]) else None
      case PreviousSibling => if x in previous then Some(previous[x]) else None
    }
  }

  function Rank(dir: Direction, x: Node): nat {
    match dir
    case ParentNode => x.depth
    case PreviousSibling => x.index
  }

  function OptionRank(dir: Direction, x: Option<Node>): nat {
    match x
    case None => 0
    case Some(y) => Rank(dir, y) + 1
  }

  // y is met when walking from x in the given direction, x itself not counted
  predicate Beyond(doc: Document, dir: Direction, x: Node, y: Node)
    requires doc.Valid()
    decreases Rank(dir, x)
  {
    match doc.Next(dir, x)
    case None => false
    case Some(z) => z == y || Beyond(doc, dir, z, y)
  }

  // The plain walk: the first node of `wanted` at `from` or beyond it
  function FirstMatch(doc: Document, dir: Direction, from: Option<Node>, wanted: set<Node>): (r: Option<Node>)
    requires doc.Valid()
    ensures r.Some? ==> r.value in wanted
    decreases OptionRank(dir, from)
  {
    match from
    case None => None
    case Some(x) => if x in wanted then from else FirstMatch(doc, dir, doc.Next(dir, x), wanted)
  }

  lemma {:induction false} BeyondIsTransitive(doc: Document, dir: Direction, x: Node, y: Node, z: Node)
    requires doc.Valid() && Beyond(doc, dir, x, y) && Beyond(doc, dir, y, z)
    ensures Beyond(doc, dir, x, z)
    decreases Rank(dir, x)
  {
    var w := doc.Next(dir, x).value;
    if w != y {
      BeyondIsTransitive(doc, dir, w, y, z);
    }
  }

  lemma {:induction false} BeyondHasSmallerRank(doc: Document, dir: Direction, x: Node, y: Node)
    requires doc.Valid() && Beyond(doc, dir, x, y)
    ensures Rank(dir, y) < Rank(dir, x)
    ensures dir == PreviousSibling ==> y.depth == x.depth && doc.SameParent(x, y)
    decreases Rank(dir, x)
  {
    var w := doc.Next(dir, x).value;
    if w != y {
      BeyondHasSmallerRank(doc, dir, w, y);
    }
  }

  /** The plain walk finds a node exactly when some wanted node lies beyond the start, and
      it finds the nearest one: every other wanted node beyond x lies beyond the found one. */
  lemma {:induction false} FirstMatchIsNearest(doc: Document, dir: Direction, x: Node, wanted: set<Node>, y: Node)
    requires doc.Valid() && y in wanted && Beyond(doc, dir, x, y)
    ensures var r := FirstMatch(doc, dir, doc.Next(dir, x), wanted);
            r.Some? && (r.value == y || Beyond(doc, dir, r.value, y))
    decreases Rank(dir, x)
  {
    var z := doc.Next(dir, x).value;
    if z !in wanted {
      FirstMatchIsNearest(doc, dir, z, wanted, y);
    }
  }

  lemma {:induction false} FirstMatchIsBeyond(doc: Document, dir: Direction, x: Node, wanted: set<Node>)
    requires doc.Valid()
    ensures var r := FirstMatch(doc, dir, doc.Next(dir, x), wanted);
            r.Some? ==> Beyond(doc, dir, x, r.value)
    decreases Rank(dir, x)
  {
    match doc.Next(dir, x)
    case None =>
    case Some(z) =>
      if z !in wanted {
        FirstMatchIsBeyond(doc, dir, z, wanted);
      }
  }
}
