/** TreeNode.java: a mutable record of a value, a parent link and a set of children. */
module TreeNodes {
  import opened JavaLang

  class TreeNode {
    /** The vertex id (a union-find representative), or -1 for the root. */
    var value: int32
    /** null only for the root. */
    var parent: TreeNode?
    /** The set of child references (a HashSet in the source). */
    var children: set<TreeNode>

    /** `new TreeNode(value, parent)`: no children yet. */
    constructor (value: int32, parent: TreeNode?)
      ensures this.value == value && this.parent == parent && children == {}
    {
      this.value := value;
      this.parent := parent;
      children := {};
    }

    method SetValue(value: int32)
      modifies this`value
      ensures this.value == value
    {
      this.value := value;
    }

    method SetParent(parent: TreeNode?)
      modifies this`parent
      ensures this.parent == parent
    {
      this.parent := parent;
    }

    /** `setChildren` stores a copy: later changes to the argument do not reach the node. */
    method SetChildren(children: set<TreeNode>)
      modifies this`children
      ensures this.children == children
    {
      this.children := children;
    }

    method AddChild(child: TreeNode)
      modifies this`children
      ensures children == old(children) + {child}
    {
      children := children + {child};
    }

    method AddChildren(newChildren: set<TreeNode>)
      modifies this`children
      ensures children == old(children) + newChildren
    {
      children := children + newChildren;
    }

    /** Reports whether the child was there. */
    method RemoveChild(child: TreeNode) returns (removed: bool)
      modifies this`children
      ensures children == old(children) - {child}
      ensures removed <==> child in old(children)
    {
      removed := child in children;
      children := children - {child};
    }

    /** Reports whether any of them was there. */
    method RemoveChildren(gone: set<TreeNode>) returns (changed: bool)
      modifies this`children
      ensures children == old(children) - gone
      ensures changed <==> old(children) * gone != {}
    {
      changed := children * gone != {};
      children := children - gone;
    }

    /**
     * `equals`: two nodes are equal when their values are; the frame shows
     * that parents and children play no part.
     */
    predicate Equals(other: TreeNode): (b: bool)
      reads this`value, other`value
      ensures this == other ==> b
    {
      value == other.value
    }
  }
}
