/**
 * `TreeNode`: a node of a decision tree. A node whose `value` is present
 * is a leaf; any other node is a decision node holding a feature, a
 * threshold and two children. The Java fields are public and mutable, so
 * the node is a class; `Tree` is the value a well-formed node denotes.
 */
module TreeNode {
  import opened Wrappers

  /** The value view of a well-formed tree of nodes. */
  datatype Tree =
    | Leaf(value: real)
    | Decision(feature: string, threshold: real, left: Tree, right: Tree)

  /** Names used by the decision nodes of `t`. */
  function Features(t: Tree): set<string>
  {
    match t
    case Leaf(_) => {}
    case Decision(f, _, l, r) => {f} + Features(l) + Features(r)
  }

  /** The values held by the leaves of `t`. */
  function LeafValues(t: Tree): (vs: set<real>)
    ensures vs != {}
  {
    match t
    case Leaf(v) => {v}
    case Decision(_, _, l, r) => LeafValues(l) + LeafValues(r)
  }

  /** The number of decision nodes on the longest root-to-leaf path. */
  function DecisionDepth(t: Tree): nat
  {
    match t
    case Leaf(_) => 0
    case Decision(_, _, l, r) =>
      1 + (if DecisionDepth(l) < DecisionDepth(r) then DecisionDepth(r) else DecisionDepth(l))
  }

  /** The number of nodes of `t`. */
  function Size(t: Tree): nat
  {
    match t
    case Leaf(_) => 1
    case Decision(_, _, l, r) => 1 + Size(l) + Size(r)
  }

  class TreeNode {
    var feature: Option<string>
    var threshold: real
    var left: TreeNode?
    var right: TreeNode?
    var value: Option<real>

    /** This node and every node below it. */
    ghost var Repr: set<object>

    /**
     * The nodes below form a finite strict binary tree owned by this node:
     * no cycles, and the two subtrees share no node.
     */
    ghost predicate Valid()
      reads this, Repr
      decreases Repr
    {
      && this in Repr
      && (left != null ==> left in Repr && left.Repr <= Repr && this !in left.Repr && left.Valid())
      && (right != null ==> right in Repr && right.Repr <= Repr && this !in right.Repr && right.Valid())
      && (left != null && right != null ==> left.Repr !! right.Repr)
    }

    /**
     * The tree this node denotes, or `None` when some decision node below
     * lacks a feature or a child (the source's `null`s), or some node with
     * a value also has a child.
     */
    ghost function Model(): Option<Tree>
      requires Valid()
      reads this, Repr
      decreases Repr
    {
      if value.Some? then (if left == null && right == null then Some(Leaf(value.value)) else None)
      else if feature.None? || left == null || right == null then None
      else
        var l, r := left.Model(), right.Model();
        if l.Some? && r.Some? then Some(Decision(feature.value, threshold, l.value, r.value)) else None
    }

    /** `TreeNode(feature, threshold, left, right, value)`: stores each argument in its field. */
    constructor (feature: Option<string>, threshold: real, left: TreeNode?, right: TreeNode?, value: Option<real>)
      ensures this.feature == feature && this.threshold == threshold
      ensures this.left == left && this.right == right && this.value == value
      ensures Repr == {this} + (if left != null then left.Repr else {}) + (if right != null then right.Repr else {})
      ensures (left != null ==> left.Valid()) && (right != null ==> right.Valid())
              && (left != null && right != null ==> left.Repr !! right.Repr)
              ==> Valid()
      ensures Valid() && value.None? && feature.Some? && left != null && right != null
              && left.Model().Some? && right.Model().Some?
              ==> Model() == Some(Decision(feature.value, threshold, left.Model().value, right.Model().value))
    {
      this.feature := feature;
      this.threshold := threshold;
      this.left := left;
      this.right := right;
      this.value := value;
      Repr := {this} + (if left != null then left.Repr else {}) + (if right != null then right.Repr else {});
    }

    /**
     * `TreeNode(value)`: sets only `value`; the other fields keep Java's
     * defaults, so the node has no feature and no children.
     */
    constructor LeafNode(value: Option<real>)
      ensures this.value == value && feature == None && threshold == 0.0
      ensures left == null && right == null
      ensures Valid() && Repr == {this}
      ensures value.Some? ==> Model() == Some(Leaf(value.value))
    {
      this.value := value;
      feature := None;
      threshold := 0.0;
      left := null;
      right := null;
      Repr := {this};
    }
  }

  /**
   * A node denotes a leaf exactly when its `value` is present, and then
   * it has no children; a decision node has no value and both children.
   */
  lemma ModelShape(node: TreeNode)
    requires node.Valid() && node.Model().Some?
    ensures node.Model().value.Leaf? <==> node.value.Some?
    ensures node.Model().value.Leaf? ==> node.left == null && node.right == null
    ensures node.Model().value.Decision? ==>
      && node.value.None? && node.feature == Some(node.Model().value.feature)
      && node.threshold == node.Model().value.threshold
      && node.left != null && node.right != null
      && node.left.Model() == Some(node.Model().value.left)
      && node.right.Model() == Some(node.Model().value.right)
  {
  }
}
