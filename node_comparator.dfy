/**
 * The comparator that ranks permission nodes by "priority": two equal nodes
 * tie at once; otherwise the nodes' context sets are compared, and only when
 * those tie are the nodes themselves compared. The context-set comparator and
 * the node comparator it delegates to are parameters, constrained by the
 * contract a Java `Comparator` promises.
 */
module NodeComparator {
  import opened Wrappers

  /** One key/value pair of a context set. */
  datatype Context = Context(key: string, value: string)

  /** An immutable context set. */
  type ContextSet = set<Context>

  /** A permission node; equality is structural over all of its parts. */
  datatype Node = Node(key: string, value: bool, contexts: ContextSet, expiry: Option<int>)

  /** The sign of a comparison result: only the sign carries meaning. */
  function Sign(x: int): int
  {
    if x > 0 then 1 else if x < 0 then -1 else 0
  }

  /** `sgn(compare(x, y)) == -sgn(compare(y, x))` for all x and y. */
  ghost predicate Antisymmetric<T(!new)>(compare: (T, T) -> int)
  {
    forall x, y :: Sign(compare(x, y)) == -Sign(compare(y, x))
  }

  /** `compare(x, y) > 0` and `compare(y, z) > 0` imply `compare(x, z) > 0`. */
  ghost predicate Transitive<T(!new)>(compare: (T, T) -> int)
  {
    forall x, y, z :: compare(x, y) > 0 && compare(y, z) > 0 ==> compare(x, z) > 0
  }

  /** Inputs that compare as 0 compare alike against everything else. */
  ghost predicate ZeroConsistent<T(!new)>(compare: (T, T) -> int)
  {
    forall x, y, z :: compare(x, y) == 0 ==> Sign(compare(x, z)) == Sign(compare(y, z))
  }

  /** The three clauses of the `java.util.Comparator` contract. */
  ghost predicate IsComparator<T(!new)>(compare: (T, T) -> int)
  {
    Antisymmetric(compare) && Transitive(compare) && ZeroConsistent(compare)
  }

  /** A comparator that answers with the opposite sign of another, input for input. */
  ghost predicate Negates<T(!new)>(reversed: (T, T) -> int, compare: (T, T) -> int)
  {
    forall x, y :: reversed(x, y) == -compare(x, y)
  }

  datatype NodeWithContextComparator = NodeWithContextComparator(
    contextSetComparator: (ContextSet, ContextSet) -> int,
    nodeComparator: (Node, Node) -> int)
  {
    /** Orders two nodes: equal nodes tie, then context sets decide, then the node comparator. */
    function Compare(o1: Node, o2: Node): int
    {
      if o1 == o2 then 0
      else
        var result := contextSetComparator(o1.contexts, o2.contexts);
        if result != 0 then result else nodeComparator(o1, o2)
    }
  }

  /** The `normal()` instance, built from the normal context-set and node comparators. */
  function Normal(contextNormal: (ContextSet, ContextSet) -> int, nodeNormal: (Node, Node) -> int)
    : NodeWithContextComparator
  {
    NodeWithContextComparator(contextNormal, nodeNormal)
  }

  /** The `reverse()` instance: the same rule, built from the reverse sub-comparators. */
  function Reverse(contextReverse: (ContextSet, ContextSet) -> int, nodeReverse: (Node, Node) -> int)
    : NodeWithContextComparator
  {
    NodeWithContextComparator(contextReverse, nodeReverse)
  }

  /** Equal nodes compare as 0 whatever the sub-comparators answer. */
  lemma EqualNodesTie(c: NodeWithContextComparator, o: Node)
    ensures c.Compare(o, o) == 0
  {
  }

  /** For unequal nodes a nonzero context-set comparison is the answer, unchanged;
      a context tie is broken by the node comparator. */
  lemma ContextsDecideFirst(c: NodeWithContextComparator, o1: Node, o2: Node)
    requires o1 != o2
    ensures c.contextSetComparator(o1.contexts, o2.contexts) != 0 ==>
      c.Compare(o1, o2) == c.contextSetComparator(o1.contexts, o2.contexts)
    ensures c.contextSetComparator(o1.contexts, o2.contexts) == 0 ==>
      c.Compare(o1, o2) == c.nodeComparator(o1, o2)
  {
  }

  /** The composition answers only with what one of its sub-comparators answered, or 0. */
  lemma CompareComesFromParts(c: NodeWithContextComparator, o1: Node, o2: Node)
    ensures c.Compare(o1, o2) == 0
         || c.Compare(o1, o2) == c.contextSetComparator(o1.contexts, o2.contexts)
         || c.Compare(o1, o2) == c.nodeComparator(o1, o2)
  {
  }

  /** If both sub-comparators are antisymmetric, so is the composition. */
  lemma CompareAntisymmetric(c: NodeWithContextComparator)
    requires Antisymmetric(c.contextSetComparator) && Antisymmetric(c.nodeComparator)
    ensures forall a, b :: Sign(c.Compare(a, b)) == -Sign(c.Compare(b, a))
  {
  }

  /** If the context-set comparator keeps the contract and the node comparator is
      antisymmetric and transitive, the composition is transitive: a lexicographic order. */
  lemma CompareTransitive(c: NodeWithContextComparator)
    requires IsComparator(c.contextSetComparator)
    requires Antisymmetric(c.nodeComparator) && Transitive(c.nodeComparator)
    ensures forall a, b, d :: c.Compare(a, b) > 0 && c.Compare(b, d) > 0 ==> c.Compare(a, d) > 0
  {
  }

  /** If both sub-comparators keep the contract, nodes the composition ties compare
      alike against every other node. */
  lemma CompareZeroConsistent(c: NodeWithContextComparator)
    requires IsComparator(c.contextSetComparator) && IsComparator(c.nodeComparator)
    ensures forall a, b, d :: c.Compare(a, b) == 0 ==> Sign(c.Compare(a, d)) == Sign(c.Compare(b, d))
  {
  }

  /** When the reverse sub-comparators negate the normal ones, `reverse()` negates `normal()`. */
  lemma ReverseNegatesNormal(
    contextNormal: (ContextSet, ContextSet) -> int, nodeNormal: (Node, Node) -> int,
    contextReverse: (ContextSet, ContextSet) -> int, nodeReverse: (Node, Node) -> int)
    requires Negates(contextReverse, contextNormal) && Negates(nodeReverse, nodeNormal)
    ensures forall a, b ::
      Reverse(contextReverse, nodeReverse).Compare(a, b) == -Normal(contextNormal, nodeNormal).Compare(a, b)
  {
  }
}
