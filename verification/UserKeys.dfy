/** The key a user is found by: the network node behind the user together with the user's id
    string. The two comparison operators look at the node only, and they disagree about keys
    that have no node. */
module UserKeys {
  import opened Wrappers

  /** A peer of one group. The network library's node type is not part of this model: a node is
      its address. */
  datatype Node = Node(ip: bv32, port: nat)

  datatype UserKey = UserKey(node: Option<Node>, idStr: string) {

    /** operator==: false as soon as one of the nodes is missing. */
    predicate Same(o: UserKey) {
      node.Some? && o.node.Some? && node == o.node
    }

    predicate Empty() {
      node.None? && idStr == ""
    }
  }

  const NO_KEY := UserKey(None, "")

  /** operator<, over whatever order the nodes have: a key without a node is above every other. */
  ghost predicate KeyLess(less: (Node, Node) -> bool, a: UserKey, b: UserKey) {
    && a.node.Some?
    && (b.node.Some? ==> less(a.node.value, b.node.value))
  }

  ghost predicate StrictTotal(less: (Node, Node) -> bool) {
    && (forall a :: !less(a, a))
    && (forall a, b, c :: less(a, b) && less(b, c) ==> less(a, c))
    && (forall a, b :: a != b ==> less(a, b) || less(b, a))
  }

  /** What std::map takes for "the same key": neither is below the other. */
  ghost predicate MapEquivalent(less: (Node, Node) -> bool, a: UserKey, b: UserKey) {
    !KeyLess(less, a, b) && !KeyLess(less, b, a)
  }

  /** operator< is fit to order a std::map, and the map's notion of equal keys is equality of the
      optional node: this is why the houses below are indexed by Option<Node>. It is not
      operator==, which separates two keys without a node from each other and from themselves. */
  lemma KeyOrder(less: (Node, Node) -> bool, a: UserKey, b: UserKey, c: UserKey)
    requires StrictTotal(less)
    ensures !KeyLess(less, a, a)
    ensures KeyLess(less, a, b) && KeyLess(less, b, c) ==> KeyLess(less, a, c)
    ensures MapEquivalent(less, a, b) <==> a.node == b.node
    ensures a.Same(b) <==> MapEquivalent(less, a, b) && a.node.Some?
    ensures a.Same(a) <==> a.node.Some?
  {
    if a.node.Some? && b.node.Some? && a.node != b.node {
      assert less(a.node.value, b.node.value) || less(b.node.value, a.node.value);
    }
  }
}
