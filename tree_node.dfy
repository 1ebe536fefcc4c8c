/** The node record of the Huffman tree (treeNode.py).
    The codec builds only two shapes of node: a leaf, made with a letter and no
    children, and an internal node, made with no letter and two children. */
module TreeNode {
  import opened Wrappers

  datatype Node =
    | Leaf(count: int, letter: char)
    | Internal(count: int, left: Node, right: Node)

  /** The `letter` attribute: `None` on an internal node. */
  function Letter(n: Node): (l: Option<char>)
    ensures l.Some? <==> n.Leaf?
    ensures n.Leaf? ==> l == Some(n.letter)
  {
    match n
    case Leaf(_, c) => Some(c)
    case Internal(_, _, _) => None
  }

  /** The `left` attribute: `None` on a leaf. */
  function Left(n: Node): (l: Option<Node>)
    ensures l.Some? <==> n.Internal?
    ensures n.Internal? ==> l == Some(n.left)
  {
    match n
    case Leaf(_, _) => None
    case Internal(_, l, _) => Some(l)
  }

  /** The `right` attribute: `None` on a leaf. */
  function Right(n: Node): (r: Option<Node>)
    ensures r.Some? <==> n.Internal?
    ensures n.Internal? ==> r == Some(n.right)
  {
    match n
    case Leaf(_, _) => None
    case Internal(_, _, r) => Some(r)
  }

  /** `a < b` (`__lt__`): compares counts only. */
  predicate Less(a: Node, b: Node)
  {
    a.count < b.count
  }

  /** `a == other` (`__eq__`): false against `None`, otherwise compares counts
      only, ignoring letters and children. */
  predicate Equal(a: Node, other: Option<Node>)
  {
    other.Some? && a.count == other.value.count
  }

  /** `__lt__` is a strict order, and `__eq__` holds exactly between nodes that
      `__lt__` cannot tell apart; nothing is equal to `None`. */
  lemma OrderOnCounts(a: Node, b: Node, c: Node)
    ensures !Less(a, a)
    ensures Less(a, b) && Less(b, c) ==> Less(a, c)
    ensures Less(a, b) ==> !Less(b, a)
    ensures Equal(a, Some(b)) <==> !Less(a, b) && !Less(b, a)
    ensures !Equal(a, None)
  {
  }

  /** Two leaves with different letters, or a leaf and an internal node, are
      `==` whenever their counts agree. */
  lemma EqualIgnoresShape(k: int, x: char, y: char, l: Node, r: Node)
    ensures Equal(Leaf(k, x), Some(Leaf(k, y)))
    ensures Equal(Leaf(k, x), Some(Internal(k, l, r)))
    ensures x != y ==> Leaf(k, x) != Leaf(k, y)
  {
  }

  /** Number of nodes, the measure of walks over a tree. */
  function Size(n: Node): (s: nat)
    ensures s >= 1
  {
    match n
    case Leaf(_, _) => 1
    case Internal(_, l, r) => 1 + Size(l) + Size(r)
  }
}
