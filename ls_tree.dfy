/**
 * LSTree.java: the look-select tree. Each live node stands for one
 * union-find class and is keyed by the class's representative; every live
 * node other than the root hangs from a live parent and is among its
 * children, but the parent links need not form a tree: once a cycle is
 * contracted, its pivot may be its own parent and out of the root's reach.
 * Edges of the graph are classified against the tree and either ignored,
 * passed on to the next phase, or used to reshape the tree (re-parenting
 * one node, or contracting a cycle of nodes into one).
 *
 * The recursions of the source along parent links (depthRecursive,
 * isAncestor, findCycleRecursive) have no bound of their own. They are
 * modelled with a bound `fuel` equal to the number of nodes the tree ever
 * allocated, and a bound that runs out is the source's StackOverflowError.
 * For depthRecursive and isAncestor the lemmas below show that this bound
 * runs out exactly when the walk would go on for ever; for
 * findCycleRecursive, FindCycleMeaning states what a successful search
 * returns and BackwardCycle that the search succeeds where processEdge
 * calls it.
 */
module LSTrees {
  import opened Results
  import opened JavaLang
  import opened Edges
  import opened UnionFinds
  import opened TreeNodes
  import opened Walks
  import opened Components

  /** The value of the root, which stands for no vertex. */
  const ROOT: int32 := -1

  /** The branch of processEdge an edge takes, in the order the source tests them. */
  datatype EdgeKind = Init | SelfLoopOrForward | Backward | CrossForward | CrossNonForward

  /** One call of processEdge: the edge given, what it returned, and the modified flag before and after it. */
  datatype Call = Call(edge: Edge, result: Result<Option<Edge>>, before: bool, modified: bool)

  /**
   * The calls of processEdge a tree has answered, in order. It is kept
   * apart from the tree's own fields so that recording a call changes
   * nothing the tree's functions read; only LSTree.ProcessEdge extends it.
   */
  class CallLog {
    ghost var calls: seq<Call>

    constructor ()
      ensures calls == []
    {
      calls := [];
    }
  }

  class LSTree {
    /** The union-find over vertex ids; the tree's nodes are keyed by its representatives. */
    const uf: UnionFind
    const root: TreeNode
    /** Live nodes by value; the root is kept under -1. */
    var nodeMap: map<int32, TreeNode>
    var modifiedThisPhase: bool
    /** Every call of processEdge so far; no part of the source, no part of Valid. */
    const log: CallLog

    /** The vertex ids the tree was built over. */
    ghost const ids: set<int32>
    /** Every node the tree allocated: the root and one node per id. Dead nodes stay in it. */
    ghost const Repr: set<TreeNode>
    /** The number of nodes in Repr: no walk along parent links meets more distinct nodes. */
    const capacity: nat

    /** Parent links never leave Repr, and capacity bounds Repr. */
    ghost predicate Walkable()
      reads Repr
    {
      && |Repr| <= capacity
      && forall n {:trigger n.parent} | n in Repr :: n.parent == null || n.parent in Repr
    }

    /** n is the node its value is currently keyed to. */
    ghost predicate IsLive(n: TreeNode)
      reads this, n
    {
      n.value in nodeMap && nodeMap[n.value] == n
    }

    /** Root, footprint and links: the root is parentless, and links never leave Repr or lead to the root. */
    ghost predicate Shaped()
      reads this, Repr
    {
      && root in Repr && root.value == ROOT && root.parent == null
      && |Repr| == capacity
      && (forall n {:trigger n.parent} | n in Repr :: n.parent == null || n.parent in Repr)
      && (forall n {:trigger n.children} | n in Repr :: n.children <= Repr && root !in n.children)
    }

    /**
     * The index: nodeMap keys each node by its value, the root by -1 and
     * every other live node by a representative of the union-find, and every
     * class's representative has a live node.
     */
    ghost predicate Indexed()
      reads this, uf, Repr
    {
      && uf.Valid() && uf.rep.Keys == ids && ROOT !in ids && |ids| < 0x8000_0000
      && ROOT in nodeMap && nodeMap[ROOT] == root
      && (forall k | k in nodeMap :: nodeMap[k] in Repr && nodeMap[k].value == k)
      && (forall k | k in nodeMap && k != ROOT :: k in ids && uf.rep[k] == k)
      && (forall x | x in ids :: uf.rep[x] in nodeMap)
    }

    /** Every live vertex node has a live parent that holds it among its children. */
    ghost predicate Linked()
      reads this, Repr
    {
      forall n {:trigger n.parent} | n in Repr && n != root && IsLive(n) ::
        n.parent != null && n.parent in Repr && IsLive(n.parent) && n in n.parent.children
    }

    /**
     * The tree's invariant. It does not say the parent links form a tree:
     * the source can make a node its own parent (see ProcessEdge), and the
     * model keeps that possibility.
     */
    ghost predicate Valid()
      reads this, uf, Repr
    {
      Shaped() && Indexed() && Linked()
    }

    /** `new LSTree(nodes)`: every vertex a leaf under the root, every vertex alone in its class. */
    constructor (nodes: set<int32>)
      requires ROOT !in nodes && |nodes| < 0x8000_0000
      ensures Valid() && fresh(Repr) && fresh(uf)
      ensures ids == nodes && !modifiedThisPhase
      ensures fresh(log) && log.calls == []
      ensures forall x | x in nodes :: uf.rep[x] == x
      ensures forall k :: k in nodeMap <==> k == ROOT || k in nodes
      ensures forall x | x in nodes :: nodeMap[x] in root.children && nodeMap[x].parent == root && nodeMap[x].children == {}
      ensures forall n | n in root.children :: n.value in nodes && nodeMap[n.value] == n
    {
      var u := new UnionFind(nodes);
      var r, m, all := NewTree(nodes);
      uf := u;
      root := r;
      nodeMap := m;
      modifiedThisPhase := false;
      ids := nodes;
      Repr := all;
      capacity := |all|;
      log := new CallLog();
      new;
      InitialValid();
    }

    /**
     * The shape NewTree builds over the node set all: r is the root, every
     * other node is a leaf under r, and m keys the root by -1 and each leaf by its id.
     */
    static ghost predicate InitialShape(nodes: set<int32>, r: TreeNode, m: map<int32, TreeNode>, all: set<TreeNode>)
      reads all
    {
      && r in all && r.value == ROOT && r.parent == null
      && ROOT in m && m[ROOT] == r
      && (forall k | k in m :: k == ROOT || k in nodes)
      && (forall x | x in nodes ::
            x in m && m[x] in all && m[x] != r && m[x].value == x && m[x].parent == r
            && m[x].children == {} && m[x] in r.children)
      && (forall n | n in all && n != r :: n.value in m && m[n.value] == n)
      && (forall n | n in r.children :: n in all && n != r)
    }

    /** The tree the constructor builds satisfies the invariant. */
    lemma InitialValid()
      requires ROOT !in ids && |ids| < 0x8000_0000
      requires uf.Valid() && uf.rep.Keys == ids && forall x | x in ids :: uf.rep[x] == x
      requires |Repr| == capacity && InitialShape(ids, root, nodeMap, Repr)
      ensures Valid()
      ensures forall k :: k in nodeMap <==> k == ROOT || k in ids
      ensures forall x | x in ids :: nodeMap[x] in root.children && nodeMap[x].parent == root && nodeMap[x].children == {}
      ensures forall n | n in root.children :: n.value in ids && nodeMap[n.value] == n
    {
      forall n | n in Repr
        ensures n.parent == null || n.parent in Repr
        ensures n.children <= Repr && root !in n.children
      {
        if n != root {
          assert nodeMap[n.value] == n;
        }
      }
      forall k | k in nodeMap
        ensures nodeMap[k] in Repr && nodeMap[k].value == k
      {
      }
      forall n | n in Repr && n != root && IsLive(n)
        ensures n.parent != null && IsLive(n.parent) && n in n.parent.children
      {
        assert n.value in ids;
      }
    }

    /** The root with one fresh leaf under it per vertex id, the map from ids (and -1) to nodes, and all the nodes. */
    static method NewTree(nodes: set<int32>) returns (r: TreeNode, m: map<int32, TreeNode>, all: set<TreeNode>)
      requires ROOT !in nodes
      ensures fresh(all) && InitialShape(nodes, r, m, all)
    {
      r := new TreeNode(ROOT, null);
      var leaves;
      m, leaves := NewLeaves(nodes, r);
      r.AddChildren(leaves);
      all := {r} + leaves;
    }

    /** One fresh leaf under r for each vertex id, and the map from ids (and -1) to nodes. */
    static method NewLeaves(nodes: set<int32>, r: TreeNode) returns (m: map<int32, TreeNode>, leaves: set<TreeNode>)
      requires ROOT !in nodes
      ensures m.Keys == nodes + {ROOT} && m[ROOT] == r
      ensures forall x | x in nodes :: m[x] in leaves && m[x].value == x && m[x].children == {}
      ensures forall n | n in leaves :: fresh(n) && n.parent == r && n.value in nodes && m[n.value] == n
    {
      m := map[ROOT := r];
      leaves := {};
      var todo := nodes;
      while todo != {}
        invariant todo <= nodes
        invariant m.Keys == (nodes - todo) + {ROOT} && m[ROOT] == r
        invariant forall x | x in nodes - todo :: m[x] in leaves && m[x].value == x && m[x].children == {}
        invariant forall n | n in leaves :: fresh(n) && n.parent == r && n.value in nodes - todo && m[n.value] == n
        decreases todo
      {
        var x :| x in todo;
        var leaf := new TreeNode(x, r);
        m := m[x := leaf];
        leaves := leaves + {leaf};
        todo := todo - {x};
      }
    }

    // ---------------------------------------------------------------
    // Walks along parent links
    // ---------------------------------------------------------------

    /** The node k parent links above x, or null once a parentless node has been passed. */
    ghost function Up(x: TreeNode, k: nat): (r: TreeNode?)
      reads Repr
      requires Walkable() && x in Repr
      ensures r != null ==> r in Repr
      decreases k
    {
      if k == 0 then x else if x.parent == null then null else Up(x.parent, k - 1)
    }

    lemma {:induction false} UpPrefix(x: TreeNode, k: nat, i: nat)
      requires Walkable() && x in Repr && Up(x, k) != null && i < k
      ensures Up(x, i) != null && Up(x, i).parent != null && Up(x, i + 1) == Up(x, i).parent
      decreases i
    {
      assert x.parent != null;
      if i > 0 {
        UpPrefix(x.parent, k - 1, i - 1);
      }
    }

    lemma {:induction false} UpAdd(x: TreeNode, a: nat, b: nat)
      requires Walkable() && x in Repr && Up(x, a) != null
      ensures Up(x, a + b) == Up(Up(x, a), b)
      decreases a
    {
      if a > 0 {
        assert x.parent != null;
        UpAdd(x.parent, a - 1, b);
      }
    }

    /** The first k + ... nodes of the walk from x: x, its parent, and so on. */
    ghost function Walk(x: TreeNode, n: nat): (w: seq<TreeNode>)
      reads Repr
      requires Walkable() && x in Repr && Up(x, n) != null
      ensures |w| == n && forall i | 0 <= i < n :: w[i] == Up(x, i)
      decreases n
    {
      if n == 0 then []
      else
        UpPrefix(x, n, n - 1);
        Walk(x, n - 1) + [Up(x, n - 1)]
    }

    /** A walk is made of distinct nodes up to the first node it meets in H. */
    lemma WalkDistinct(x: TreeNode, H: set<TreeNode>, k: nat)
      requires Walkable() && x in Repr
      requires Up(x, k) != null && Up(x, k) in H
      requires forall i | 0 <= i < k :: Up(x, i) !in H
      ensures forall i, j | 0 <= i < j <= k :: Up(x, i) != Up(x, j)
    {
      forall i, j | 0 <= i < j <= k
        ensures Up(x, i) != Up(x, j)
      {
        if Up(x, i) == Up(x, j) {
          UpPrefix(x, k, i);
          UpAdd(x, i, k - j);
          UpAdd(x, j, k - j);
          assert false;
        }
      }
    }

    /**
     * A walk that first meets the node set H after k links visited k + 1
     * distinct nodes, so k is below the number of nodes.
     */
    lemma FirstHitBound(x: TreeNode, H: set<TreeNode>, k: nat)
      requires Walkable() && x in Repr
      requires Up(x, k) != null && Up(x, k) in H
      requires forall i | 0 <= i < k :: Up(x, i) !in H
      ensures k < capacity
    {
      var w := Walk(x, k) + [Up(x, k)];
      assert forall i | 0 <= i < k + 1 :: w[i] == Up(x, i);
      WalkDistinct(x, H, k);
      DistinctBound(w, Repr);
    }

    // ---------------------------------------------------------------
    // depth / depthRecursive
    // ---------------------------------------------------------------

    ghost predicate ParentlessAt(x: TreeNode, k: nat)
      reads Repr
      requires Walkable() && x in Repr
    {
      Up(x, k) != null && Up(x, k).parent == null
    }

    /** `depthRecursive(u, depth)`, with at most `fuel` more links before the stack overflows. */
    function DepthRecursive(u: TreeNode, depth: nat, fuel: nat): (r: Result<nat>)
      reads Repr
      requires Walkable() && u in Repr
      ensures r.Err? ==> r.error == StackOverflow
      ensures r.Ok? ==> r.value >= depth
      ensures fuel == 0 && u.parent != null ==> r.Err?
      decreases fuel
    {
      if u.parent == null then Ok(depth)
      else if fuel == 0 then Err(StackOverflow)
      else DepthRecursive(u.parent, depth + 1, fuel - 1)
    }

    /** `depth(u)`: the number of parent links from u to a parentless node. */
    function Depth(u: TreeNode): (r: Result<nat>)
      reads Repr
      requires Walkable() && u in Repr
      ensures r.Err? ==> r.error == StackOverflow
      ensures u.parent == null <==> r == Ok(0)
    {
      DepthRecursive(u, 0, capacity)
    }

    lemma {:induction false} DepthRecursiveAt(x: TreeNode, depth: nat, fuel: nat, k: nat)
      requires Walkable() && x in Repr && ParentlessAt(x, k)
      ensures DepthRecursive(x, depth, fuel) == if k <= fuel then Ok(depth + k) else Err(StackOverflow)
      decreases k
    {
      if k > 0 {
        assert x.parent != null;
        if fuel > 0 {
          DepthRecursiveAt(x.parent, depth + 1, fuel - 1, k - 1);
        }
      }
    }

    lemma {:induction false} DepthRecursiveNever(x: TreeNode, depth: nat, fuel: nat)
      requires Walkable() && x in Repr
      requires forall k: nat :: !ParentlessAt(x, k)
      ensures DepthRecursive(x, depth, fuel) == Err(StackOverflow)
      decreases fuel
    {
      assert !ParentlessAt(x, 0);
      if fuel > 0 {
        forall k: nat
          ensures !ParentlessAt(x.parent, k)
        {
          assert !ParentlessAt(x, k + 1);
        }
        DepthRecursiveNever(x.parent, depth + 1, fuel - 1);
      }
    }

    /**
     * depth(u) is k exactly when the walk from u reaches a parentless node
     * after k links; it overflows exactly when the walk never does.
     */
    lemma DepthMeaning(u: TreeNode)
      requires Walkable() && u in Repr
      ensures Depth(u).Err? ==> Depth(u).error == StackOverflow
      ensures Depth(u).Err? <==> forall k: nat :: !ParentlessAt(u, k)
      ensures forall k: nat :: Depth(u) == Ok(k) <==> ParentlessAt(u, k)
    {
      var H := set n | n in Repr && n.parent == null;
      forall k: nat | ParentlessAt(u, k)
        ensures Depth(u) == Ok(k)
      {
        forall i | 0 <= i < k
          ensures Up(u, i) !in H
        {
          UpPrefix(u, k, i);
        }
        FirstHitBound(u, H, k);
        DepthRecursiveAt(u, 0, capacity, k);
      }
      if forall k: nat :: !ParentlessAt(u, k) {
        DepthRecursiveNever(u, 0, capacity);
      }
    }

    /** The recursion of depthRecursive, as an equation between depth(u) and depth(u.parent). */
    lemma DepthStep(u: TreeNode)
      requires Walkable() && u in Repr
      ensures u.parent == null ==> Depth(u) == Ok(0)
      ensures u.parent != null ==>
                Depth(u) == if Depth(u.parent).Ok? then Ok(Depth(u.parent).value + 1) else Depth(u.parent)
    {
      DepthMeaning(u);
      if u.parent != null {
        DepthMeaning(u.parent);
        if Depth(u.parent).Ok? {
          assert ParentlessAt(u.parent, Depth(u.parent).value);
          assert ParentlessAt(u, Depth(u.parent).value + 1);
        } else {
          forall k: nat
            ensures !ParentlessAt(u, k)
          {
            if k > 0 {
              assert !ParentlessAt(u.parent, k - 1);
            }
          }
        }
      }
    }

    // ---------------------------------------------------------------
    // isAncestor
    // ---------------------------------------------------------------

    /** Where the walk of isAncestor(u, ...) from v stops: a parentless node, or a node equal to u. */
    ghost predicate AncestorStop(u: TreeNode, v: TreeNode, k: nat)
      reads Repr
      requires Walkable() && u in Repr && v in Repr
    {
      Up(v, k) != null && (Up(v, k).parent == null || Up(v, k).value == u.value)
    }

    ghost predicate FirstAncestorStop(u: TreeNode, v: TreeNode, k: nat)
      reads Repr
      requires Walkable() && u in Repr && v in Repr
    {
      AncestorStop(u, v, k) && forall i | 0 <= i < k :: !AncestorStop(u, v, i)
    }

    /** `isAncestor(u, v)`, with at most `fuel` more links before the stack overflows. */
    function IsAncestorWithin(u: TreeNode, v: TreeNode?, fuel: nat): (r: Result<bool>)
      reads Repr
      requires Walkable() && u in Repr && (v == null || v in Repr)
      ensures r.Err? ==> r.error == StackOverflow
      ensures r == Ok(true) ==> v != null && v.parent != null
      decreases fuel
    {
      if v == null || v.parent == null then Ok(false)
      else if v.Equals(u) then Ok(true)
      else if fuel == 0 then Err(StackOverflow)
      else IsAncestorWithin(u, v.parent, fuel - 1)
    }

    /** `isAncestor(u, v)`: whether u (by value) is met walking up from v before a parentless node. */
    function IsAncestor(u: TreeNode, v: TreeNode?): (r: Result<bool>)
      reads Repr
      requires Walkable() && u in Repr && (v == null || v in Repr)
      ensures r.Err? ==> r.error == StackOverflow
      ensures r == Ok(true) ==> v != null && v.parent != null
      ensures v != null && v.parent != null && v.Equals(u) ==> r == Ok(true)
    {
      IsAncestorWithin(u, v, capacity)
    }

    lemma {:induction false} IsAncestorAt(u: TreeNode, v: TreeNode, fuel: nat, k: nat)
      requires Walkable() && u in Repr && v in Repr && FirstAncestorStop(u, v, k)
      ensures IsAncestorWithin(u, v, fuel) == if k <= fuel then Ok(Up(v, k).parent != null) else Err(StackOverflow)
      decreases k
    {
      if k > 0 {
        assert !AncestorStop(u, v, 0);
        if fuel > 0 {
          forall i | 0 <= i < k - 1
            ensures !AncestorStop(u, v.parent, i)
          {
            assert !AncestorStop(u, v, i + 1);
          }
          IsAncestorAt(u, v.parent, fuel - 1, k - 1);
        }
      }
    }

    lemma {:induction false} IsAncestorNever(u: TreeNode, v: TreeNode, fuel: nat)
      requires Walkable() && u in Repr && v in Repr
      requires forall k: nat :: !AncestorStop(u, v, k)
      ensures IsAncestorWithin(u, v, fuel) == Err(StackOverflow)
      decreases fuel
    {
      assert !AncestorStop(u, v, 0);
      if fuel > 0 {
        forall k: nat
          ensures !AncestorStop(u, v.parent, k)
        {
          assert !AncestorStop(u, v, k + 1);
        }
        IsAncestorNever(u, v.parent, fuel - 1);
      }
    }

    lemma {:induction false} FirstStopOf(u: TreeNode, v: TreeNode, k: nat) returns (j: nat)
      requires Walkable() && u in Repr && v in Repr && AncestorStop(u, v, k)
      ensures j <= k && FirstAncestorStop(u, v, j)
      decreases k
    {
      if i :| 0 <= i < k && AncestorStop(u, v, i) {
        j := FirstStopOf(u, v, i);
      } else {
        j := k;
      }
    }

    /** The first stop is below the number of nodes. */
    lemma FirstStopBound(u: TreeNode, v: TreeNode, k: nat)
      requires Walkable() && u in Repr && v in Repr && FirstAncestorStop(u, v, k)
      ensures k < capacity
    {
      var H := set n | n in Repr && (n.parent == null || n.value == u.value);
      forall i | 0 <= i < k
        ensures Up(v, i) !in H
      {
        assert !AncestorStop(u, v, i);
      }
      FirstHitBound(v, H, k);
    }

    /**
     * isAncestor(u, v) walks up from v to the first node that is parentless
     * or equal to u, and answers whether that node has a parent: false for a
     * parentless v, true when v or a non-root ancestor of v equals u. It
     * overflows exactly when the walk reaches neither kind of node.
     */
    lemma IsAncestorMeaning(u: TreeNode, v: TreeNode)
      requires Walkable() && u in Repr && v in Repr
      ensures IsAncestor(u, v).Err? ==> IsAncestor(u, v).error == StackOverflow
      ensures IsAncestor(u, v).Err? <==> forall k: nat :: !AncestorStop(u, v, k)
      ensures forall k: nat | FirstAncestorStop(u, v, k) :: IsAncestor(u, v) == Ok(Up(v, k).parent != null)
    {
      forall k: nat | FirstAncestorStop(u, v, k)
        ensures IsAncestor(u, v) == Ok(Up(v, k).parent != null)
      {
        FirstStopBound(u, v, k);
        IsAncestorAt(u, v, capacity, k);
      }
      if k: nat :| AncestorStop(u, v, k) {
        var j := FirstStopOf(u, v, k);
        assert IsAncestor(u, v) == Ok(Up(v, j).parent != null);
      } else {
        IsAncestorNever(u, v, capacity);
      }
    }

    /** `isAncestor(u, v)` answers true exactly at the first stop of a walk that stops at a node with a parent. */
    lemma IsAncestorTrue(u: TreeNode, v: TreeNode) returns (k: nat)
      requires Walkable() && u in Repr && v in Repr && IsAncestor(u, v) == Ok(true)
      ensures FirstAncestorStop(u, v, k) && Up(v, k).parent != null && Up(v, k).value == u.value
    {
      IsAncestorMeaning(u, v);
      var s: nat :| AncestorStop(u, v, s);
      k := FirstStopOf(u, v, s);
    }

    // ---------------------------------------------------------------
    // findCycle / findCycleRecursive
    // ---------------------------------------------------------------

    /** `findCycleRecursive(u, v, currentCycle)`, with at most `fuel` more links before the stack overflows. */
    function FindCycleRecursive(u: TreeNode?, v: TreeNode, currentCycle: seq<TreeNode>, fuel: nat): (r: Result<seq<TreeNode>>)
      reads Repr
      requires Walkable() && v in Repr && (u == null || u in Repr)
      ensures r.Ok? ==> |r.value| >= |currentCycle| && r.value[..|currentCycle|] == currentCycle
      ensures r.Ok? ==> forall k | |currentCycle| <= k < |r.value| :: r.value[k] in Repr
      decreases fuel
    {
      if u == null then Err(NullPointer)
      else if u.Equals(v) then Ok(currentCycle)
      else if fuel == 0 then Err(StackOverflow)
      else FindCycleRecursive(u.parent, v, currentCycle + [u], fuel - 1)
    }

    /** `findCycle(u, v)`: v, then u and its ancestors up to the first node equal to v. */
    function FindCycle(u: TreeNode, v: TreeNode): (r: Result<seq<TreeNode>>)
      reads Repr
      requires Walkable() && u in Repr && v in Repr
      ensures r.Ok? ==> |r.value| >= 1 && r.value[0] == v
      ensures r.Ok? ==> forall k | 0 <= k < |r.value| :: r.value[k] in Repr
    {
      FindCycleRecursive(u, v, [v], capacity)
    }

    lemma {:induction false} FindCycleAt(u: TreeNode, v: TreeNode, acc: seq<TreeNode>, fuel: nat, k: nat)
      requires Walkable() && u in Repr && v in Repr
      requires FirstAncestorStop(v, u, k) && Up(u, k).parent != null && k <= fuel
      ensures FindCycleRecursive(u, v, acc, fuel) == Ok(acc + Walk(u, k))
      decreases k
    {
      if k == 0 {
        assert acc + Walk(u, 0) == acc;
      } else {
        assert !AncestorStop(v, u, 0);
        forall i | 0 <= i < k - 1
          ensures !AncestorStop(v, u.parent, i)
        {
          assert !AncestorStop(v, u, i + 1);
        }
        FindCycleAt(u.parent, v, acc + [u], fuel - 1, k - 1);
        var w := Walk(u, k);
        var w' := Walk(u.parent, k - 1);
        assert w == [u] + w' by {
          forall i | 0 <= i < k
            ensures w[i] == ([u] + w')[i]
          {
            if i > 0 {
              assert Up(u, i) == Up(u.parent, i - 1);
            }
          }
        }
        assert acc + [u] + w' == acc + w;
      }
    }

    /**
     * When the walk from u first stops at a node equal to v that has a
     * parent, findCycle(u, v) is v followed by the k nodes of the walk
     * before that node: u, u's parent, and so on.
     */
    lemma FindCycleMeaning(u: TreeNode, v: TreeNode, k: nat)
      requires Walkable() && u in Repr && v in Repr
      requires FirstAncestorStop(v, u, k) && Up(u, k).parent != null
      ensures FindCycle(u, v) == Ok([v] + Walk(u, k))
    {
      FirstStopBound(v, u, k);
      FindCycleAt(u, v, [v], capacity, k);
    }

    // ---------------------------------------------------------------
    // getNode, translateEdge and the edge classifiers
    // ---------------------------------------------------------------

    /** `getNode(value)`: the node keyed by value; a value whose node was contracted away throws. */
    function GetNode(value: int32): (r: Result<TreeNode>)
      reads this
      ensures r.Ok? <==> value in nodeMap
      ensures r.Ok? ==> r.value == nodeMap[value]
      ensures r.Err? ==> r.error == DeadNode
    {
      if value in nodeMap then Ok(nodeMap[value]) else Err(DeadNode)
    }

    /** Both endpoints are keys of live vertex nodes (never the root). */
    ghost predicate Translated(e: Edge)
      reads this
    {
      e.i in nodeMap && e.j in nodeMap && e.i != ROOT && e.j != ROOT
    }

    /**
     * `translateEdge(e)`: the edge between the classes of e's endpoints,
     * named by their representatives, which are always live vertex nodes.
     */
    function TranslateEdge(e: Edge): (r: Result<Edge>)
      reads this, uf, Repr
      requires Valid()
      ensures r.Ok? <==> e.i in ids && e.j in ids
      ensures r.Err? ==> r.error == NotInUnionFind
      ensures r.Ok? ==> r.value == Edge(uf.rep[e.i], uf.rep[e.j]) && Translated(r.value)
    {
      var i :- uf.Find(e.i);
      var j :- uf.Find(e.j);
      Ok(Edge(i, j))
    }

    /**
     * `isInit(e)`: whether e's head still hangs directly under the root. A
     * dead head throws, and so does the root as head (its parent is null).
     */
    function IsInit(e: Edge): (r: Result<bool>)
      reads this, uf, Repr
      requires Valid()
      ensures r.Err? <==> e.j !in nodeMap || e.j == ROOT
      ensures r.Err? ==> r.error == if e.j in nodeMap then NullPointer else DeadNode
      ensures r.Ok? ==> r.value == (nodeMap[e.j].parent == root)
    {
      var v :- GetNode(e.j);
      if v.parent == null then Err(NullPointer) else Ok(v.parent.Equals(root))
    }

    /**
     * `isSelfLoop(e)` compares the endpoints' Integer boxes by reference.
     * The boxes come from autoboxing in Edge's constructor, which shares a box
     * per value only inside the Integer cache, -128..127, so equal endpoints
     * outside that range compare unequal (see ClassifySelfLoop for why the
     * outcome of processEdge does not depend on it).
     */
    function IsSelfLoop(e: Edge): (r: bool)
      ensures r ==> e.i == e.j
      ensures e.i == e.j && -128 <= e.i < 128 ==> r
    {
      e.i == e.j && -128 <= e.i < 128
    }

    /** `isForward(e)`: whether the tail of e is an ancestor of its head. */
    function IsForward(e: Edge): (r: Result<bool>)
      reads this, uf, Repr
      requires Valid()
      ensures r.Err? ==> r.error == (if e.i in nodeMap && e.j in nodeMap then StackOverflow else DeadNode)
      ensures e.i in nodeMap && e.j in nodeMap ==> r == IsAncestor(nodeMap[e.i], nodeMap[e.j])
    {
      var u :- GetNode(e.i);
      var v :- GetNode(e.j);
      IsAncestorMeaning(u, v);
      IsAncestor(u, v)
    }

    /** `isBackward(e)`: whether the head of e is an ancestor of its tail. */
    function IsBackward(e: Edge): (r: Result<bool>)
      reads this, uf, Repr
      requires Valid()
      ensures r.Err? ==> r.error == (if e.i in nodeMap && e.j in nodeMap then StackOverflow else DeadNode)
      ensures e.i in nodeMap && e.j in nodeMap ==> r == IsAncestor(nodeMap[e.j], nodeMap[e.i])
    {
      var u :- GetNode(e.i);
      var v :- GetNode(e.j);
      IsAncestorMeaning(v, u);
      IsAncestor(v, u)
    }

    /** `isCrossForward(e)`: neither forward nor backward, and the tail is shallower than the head. */
    function IsCrossForward(e: Edge): (r: Result<bool>)
      reads this, uf, Repr
      requires Valid()
      ensures r.Err? ==> r.error in {DeadNode, StackOverflow}
      ensures r == Ok(true) ==> IsForward(e) == Ok(false) && IsBackward(e) == Ok(false)
      ensures IsForward(e) == Ok(true) || (IsForward(e) == Ok(false) && IsBackward(e) == Ok(true)) ==> r == Ok(false)
      ensures e.i in nodeMap && e.j in nodeMap && IsForward(e) == Ok(false) && IsBackward(e) == Ok(false) ==>
                && Depth(nodeMap[e.i]).Ok? && Depth(nodeMap[e.j]).Ok?
                && r == Ok(Depth(nodeMap[e.i]).value < Depth(nodeMap[e.j]).value)
    {
      var u :- GetNode(e.i);
      var v :- GetNode(e.j);
      var forward :- IsForward(e);
      if forward then Ok(false)
      else
        var backward :- IsBackward(e);
        if backward then Ok(false)
        else
          AncestorFalseGivesDepth(u, v);
          AncestorFalseGivesDepth(v, u);
          Ok(Depth(u).value < Depth(v).value)
    }

    /** `isCrossNonForward(e)`: neither forward nor backward, and the tail is no shallower than the head. */
    function IsCrossNonForward(e: Edge): (r: Result<bool>)
      reads this, uf, Repr
      requires Valid()
      ensures r.Err? ==> r.error in {DeadNode, StackOverflow}
      ensures r == Ok(true) ==> IsForward(e) == Ok(false) && IsBackward(e) == Ok(false)
      ensures IsForward(e) == Ok(true) || (IsForward(e) == Ok(false) && IsBackward(e) == Ok(true)) ==> r == Ok(false)
      ensures e.i in nodeMap && e.j in nodeMap && IsForward(e) == Ok(false) && IsBackward(e) == Ok(false) ==>
                && Depth(nodeMap[e.i]).Ok? && Depth(nodeMap[e.j]).Ok?
                && r == Ok(Depth(nodeMap[e.i]).value >= Depth(nodeMap[e.j]).value)
    {
      var u :- GetNode(e.i);
      var v :- GetNode(e.j);
      var forward :- IsForward(e);
      if forward then Ok(false)
      else
        var backward :- IsBackward(e);
        if backward then Ok(false)
        else
          AncestorFalseGivesDepth(u, v);
          AncestorFalseGivesDepth(v, u);
          Ok(Depth(u).value >= Depth(v).value)
    }

    /** When isAncestor(a, b) answers false, the walk from b reaches a parentless node, so depth(b) returns. */
    lemma AncestorFalseGivesDepth(a: TreeNode, b: TreeNode)
      requires Walkable() && a in Repr && b in Repr && IsAncestor(a, b) == Ok(false)
      ensures Depth(b).Ok?
    {
      IsAncestorMeaning(a, b);
      var s: nat :| AncestorStop(a, b, s);
      var k := FirstStopOf(a, b, s);
      assert ParentlessAt(b, k);
      DepthMeaning(b);
    }

    /**
     * An edge that is neither forward nor backward is exactly one of
     * cross-forward and cross-non-forward, and neither test throws: the
     * "never reach here" branch of processEdge is dead.
     */
    lemma CrossCasesComplementary(e: Edge)
      requires Valid() && Translated(e) && IsForward(e) == Ok(false) && IsBackward(e) == Ok(false)
      ensures IsCrossForward(e).Ok? && IsCrossNonForward(e).Ok?
      ensures IsCrossForward(e).value != IsCrossNonForward(e).value
    {
      AncestorFalseGivesDepth(nodeMap[e.i], nodeMap[e.j]);
      AncestorFalseGivesDepth(nodeMap[e.j], nodeMap[e.i]);
    }

    // ---------------------------------------------------------------
    // The cycle findCycle returns for a backward edge
    // ---------------------------------------------------------------

    /** Every node on a walk from a live node is live: a live vertex node's parent is live. */
    lemma {:induction false} UpLive(x: TreeNode, i: nat)
      requires Valid() && x in Repr && IsLive(x) && Up(x, i) != null
      ensures IsLive(Up(x, i))
      decreases i
    {
      if i > 0 {
        assert x.parent != null && x != root;
        UpLive(x.parent, i - 1);
      }
    }

    /** Live, distinct, non-root nodes with pairwise distinct values. */
    ghost predicate LiveCycle(c: seq<TreeNode>)
      reads this, Repr
    {
      && |c| >= 1
      && (forall k | 0 <= k < |c| :: c[k] in Repr && c[k] != root && IsLive(c[k]))
      && (forall k, l | 0 <= k < l < |c| :: c[k].value != c[l].value)
    }

    /**
     * The cycle closed by a backward edge (u, v): v, then u and its
     * ancestors up to v, each the child of the next and the last a child of v.
     */
    ghost predicate IsBackwardCycle(c: seq<TreeNode>, u: TreeNode, v: TreeNode)
      reads this, Repr
    {
      && LiveCycle(c) && c[0] == v && (|c| >= 2 ==> c[1] == u)
      && (forall k | 1 <= k < |c| :: c[k].parent == if k + 1 < |c| then c[k + 1] else v)
    }

    /**
     * The walk behind a backward edge (u, v): v lies k links above u, the
     * walk meets no node equal to v before that and repeats no node, and
     * findCycle(u, v) is v followed by the first k nodes of the walk.
     */
    lemma BackwardWalk(u: TreeNode, v: TreeNode) returns (k: nat)
      requires Walkable() && u in Repr && v in Repr && IsAncestor(v, u) == Ok(true)
      ensures Up(u, k) != null && Up(u, k).value == v.value
      ensures FindCycle(u, v) == Ok([v] + Walk(u, k))
      ensures forall i | 0 <= i < k :: Up(u, i) != null && Up(u, i).parent == Up(u, i + 1)
      ensures forall i, j | 0 <= i < j <= k :: Up(u, i) != Up(u, j)
    {
      k := IsAncestorTrue(v, u);
      FindCycleMeaning(u, v, k);
      var H := set n | n in Repr && (n.parent == null || n.value == v.value);
      forall i | 0 <= i < k
        ensures Up(u, i) !in H
        ensures Up(u, i) != null && Up(u, i).parent == Up(u, i + 1)
      {
        assert !AncestorStop(v, u, i);
        UpPrefix(u, k, i);
      }
      WalkDistinct(u, H, k);
    }

    /** Nodes of the walk from a live node up to a live vertex node are live vertex nodes. */
    lemma WalkLive(u: TreeNode, k: nat)
      requires Valid() && u in Repr && IsLive(u) && Up(u, k) != null && Up(u, k) != root
      ensures forall i | 0 <= i <= k :: Up(u, i) != null && Up(u, i) != root && IsLive(Up(u, i))
    {
      forall i | 0 <= i <= k
        ensures Up(u, i) != null && Up(u, i) != root && IsLive(Up(u, i))
      {
        if i < k {
          UpPrefix(u, k, i);
        }
        UpLive(u, i);
      }
    }

    /** The cycle [v] + Walk(u, k) of a walk from u that first reaches v after k links, read by index. */
    lemma CycleOfWalk(u: TreeNode, v: TreeNode, k: nat)
      requires Walkable() && u in Repr && Up(u, k) == v
      requires forall i | 0 <= i < k :: Up(u, i) != null && Up(u, i).parent == Up(u, i + 1)
      requires forall i, j | 0 <= i < j <= k :: Up(u, i) != Up(u, j)
      ensures var c := [v] + Walk(u, k);
                && |c| == k + 1 && c[0] == v && (k > 0 ==> c[1] == u)
                && (forall i | 1 <= i < |c| :: c[i] == Up(u, i - 1) && c[i].parent == if i + 1 < |c| then c[i + 1] else v)
                && (forall a, b | 0 <= a < b < |c| :: c[a] != c[b])
    {
      var w := Walk(u, k);
      var c := [v] + w;
      forall i | 1 <= i < |c|
        ensures c[i] == Up(u, i - 1)
      {
        assert c[i] == w[i - 1];
      }
      forall a, b | 0 <= a < b < |c|
        ensures c[a] != c[b]
      {
        if a == 0 {
          assert Up(u, b - 1) != Up(u, k);
        } else {
          assert Up(u, a - 1) != Up(u, b - 1);
        }
      }
    }

    /**
     * For a backward edge, findCycle succeeds and returns the cycle the edge
     * closes; the cycle has a single node exactly when the edge is a loop.
     */
    lemma BackwardCycle(e: Edge)
      requires Valid() && Translated(e) && IsBackward(e) == Ok(true)
      ensures FindCycle(nodeMap[e.i], nodeMap[e.j]).Ok?
      ensures var c := FindCycle(nodeMap[e.i], nodeMap[e.j]).value;
                IsBackwardCycle(c, nodeMap[e.i], nodeMap[e.j]) && (|c| == 1 <==> e.i == e.j)
    {
      var u, v := nodeMap[e.i], nodeMap[e.j];
      var k := BackwardWalk(u, v);
      UpLive(u, k);
      assert Up(u, k) == v;
      WalkLive(u, k);
      CycleOfWalk(u, v, k);
      var c := [v] + Walk(u, k);
      assert forall i | 0 <= i < |c| :: c[i] in Repr && c[i] != root && IsLive(c[i]) by {
        forall i | 0 <= i < |c|
          ensures c[i] in Repr && c[i] != root && IsLive(c[i])
        {
          if i > 0 {
            assert c[i] == Up(u, i - 1);
          }
        }
      }
      forall a, b | 0 <= a < b < |c|
        ensures c[a].value != c[b].value
      {
        assert IsLive(c[a]) && IsLive(c[b]) && c[a] != c[b];
      }
    }

    // ---------------------------------------------------------------
    // The dispatch of processEdge
    // ---------------------------------------------------------------

    /**
     * The branch processEdge takes for a translated edge, testing in the
     * source's order: init, self-loop or forward, backward, cross-forward,
     * cross-non-forward. The final "never reach here" branch is dead
     * (CrossCasesComplementary), so only a stack overflow of the walks ends
     * in an error.
     */
    function Classify(e: Edge): (r: Result<EdgeKind>)
      reads this, uf, Repr
      requires Valid() && Translated(e)
      ensures r.Err? ==> r.error == StackOverflow
      ensures r == Ok(Init) <==> IsInit(e) == Ok(true)
      ensures r == Ok(SelfLoopOrForward) ==> IsInit(e) == Ok(false) && (IsSelfLoop(e) || IsForward(e) == Ok(true))
      ensures r == Ok(Backward) ==> IsInit(e) == Ok(false) && IsForward(e) == Ok(false) && IsBackward(e) == Ok(true)
      ensures r == Ok(CrossForward) ==>
                IsInit(e) == Ok(false) && IsForward(e) == Ok(false) && IsBackward(e) == Ok(false) && IsCrossForward(e) == Ok(true)
      ensures r == Ok(CrossNonForward) ==>
                IsInit(e) == Ok(false) && IsForward(e) == Ok(false) && IsBackward(e) == Ok(false)
                && IsCrossForward(e) == Ok(false) && IsCrossNonForward(e) == Ok(true)
    {
      if IsInit(e) == Ok(true) then Ok(Init)
      else if IsSelfLoop(e) then Ok(SelfLoopOrForward)
      else
        var forward :- IsForward(e);
        if forward then Ok(SelfLoopOrForward)
        else
          var backward :- IsBackward(e);
          if backward then Ok(Backward)
          else
            CrossCasesComplementary(e);
            if IsCrossForward(e).value then Ok(CrossForward) else Ok(CrossNonForward)
    }

    /**
     * The reference comparison in isSelfLoop changes nothing: a non-init
     * edge with equal endpoints is forward (a vertex node has a parent and
     * equals itself), so it lands in the same branch either way.
     */
    lemma ClassifySelfLoop(e: Edge)
      requires Valid() && Translated(e) && IsInit(e) == Ok(false) && e.i == e.j
      ensures IsForward(e) == Ok(true) && Classify(e) == Ok(SelfLoopOrForward)
    {
      var v := nodeMap[e.j];
      assert v.parent != null;
    }

    /** A backward edge in Classify is never a loop: a loop on a vertex node is forward. */
    lemma ClassifyBackwardIsProper(e: Edge)
      requires Valid() && Translated(e) && Classify(e) == Ok(Backward)
      ensures e.i != e.j
    {
      if e.i == e.j {
        ClassifySelfLoop(e);
      }
    }

    // ---------------------------------------------------------------
    // processInit and processCrossNonForward: moving one node
    // ---------------------------------------------------------------

    /**
     * From the old state to the new one, the head v of e left the children
     * of its old parent p, joined the children of the tail u and took u as
     * its parent, and the modified flag was set. No value, no other parent
     * link and no other child set changed, nor did the index or the union-find.
     */
    twostate predicate Reparented(e: Edge)
      reads this, uf, Repr
    {
      && modifiedThisPhase
      && nodeMap == old(nodeMap) && uf.rep == old(uf.rep)
      && e.i in nodeMap && e.j in nodeMap
      && var u, v, p := nodeMap[e.i], nodeMap[e.j], old(nodeMap[e.j].parent);
         && (forall n | n in Repr :: n.value == old(n.value))
         && (forall n | n in Repr :: n.parent == if n == v then u else old(n.parent))
         && (forall n | n in Repr ::
               n.children == (if n == p then old(n.children) - {v} else old(n.children)) + (if n == u then {v} else {}))
    }

    /** Moving a live vertex node under a live node keeps the invariant. */
    twostate lemma ReparentedValid(e: Edge)
      requires old(Valid()) && old(Translated(e))
      requires Reparented(e)
      ensures Valid()
    {
      var u, v := nodeMap[e.i], nodeMap[e.j];
      assert old(IsLive(u)) && old(IsLive(v));
      forall n | n in Repr
        ensures n.parent == null || n.parent in Repr
        ensures n.children <= Repr && root !in n.children
      {
        assert old(n.parent == null || n.parent in Repr);
        assert old(n.children <= Repr && root !in n.children);
      }
      forall k | k in nodeMap
        ensures nodeMap[k] in Repr && nodeMap[k].value == k
      {
        assert old(nodeMap[k] in Repr && nodeMap[k].value == k);
      }
      forall n | n in Repr && n != root && IsLive(n)
        ensures n.parent != null && IsLive(n.parent) && n in n.parent.children
      {
        assert old(IsLive(n));
        if n != v {
          var q := old(n.parent);
          assert old(q != null && IsLive(q) && n in q.children);
          assert q in Repr && IsLive(q);
        }
      }
    }

    /**
     * `processInit(e)`: the head v of an init edge (u, v) leaves the root's
     * children and becomes a child of the tail u.
     */
    method ProcessInit(e: Edge)
      requires Valid() && Translated(e) && IsInit(e) == Ok(true)
      modifies this`modifiedThisPhase, Repr
      ensures Valid()
      ensures Reparented(e)
    {
      var u := GetNode(e.i).value;
      var v := GetNode(e.j).value;
      var removed := root.RemoveChild(v);
      u.AddChild(v);
      v.SetParent(u);
      modifiedThisPhase := true;
      ReparentedValid(e);
    }

    /**
     * `processCrossNonForward(e)`: the head v of e leaves its parent p and
     * becomes a child of the tail u; the edge (p, v) is passed on to the
     * next phase.
     */
    method ProcessCrossNonForward(e: Edge) returns (emitted: Edge)
      requires Valid() && Translated(e)
      modifies this`modifiedThisPhase, Repr
      ensures Valid()
      ensures Reparented(e)
      ensures emitted == Edge(old(nodeMap[e.j].parent.value), e.j)
    {
      var u := GetNode(e.i).value;
      var v := GetNode(e.j).value;
      var vParent := v.parent;
      var removed := vParent.RemoveChild(v);
      u.AddChild(v);
      v.SetParent(u);
      modifiedThisPhase := true;
      ReparentedValid(e);
      emitted := Edge(vParent.value, v.value);
    }

    // ---------------------------------------------------------------
    // processBackward: contracting a cycle into its first node
    // ---------------------------------------------------------------

    /** The values of the nodes of c, in order. */
    ghost function Values(c: seq<TreeNode>): (vs: seq<int32>)
      reads Repr
      requires forall k | 0 <= k < |c| :: c[k] in Repr
      ensures |vs| == |c| && forall k | 0 <= k < |c| :: vs[k] == c[k].value
    {
      seq(|c|, k requires 0 <= k < |c| reads Repr => c[k].value)
    }

    /** The child sets of the nodes of c, in order. */
    ghost function ChildSets(c: seq<TreeNode>): (ks: seq<set<TreeNode>>)
      reads Repr
      requires forall k | 0 <= k < |c| :: c[k] in Repr
      ensures |ks| == |c| && forall k | 0 <= k < |c| :: ks[k] == c[k].children
    {
      seq(|c|, k requires 0 <= k < |c| reads Repr => c[k].children)
    }

    /** The elements vs[lo..hi] as a set. */
    static function Image(vs: seq<int32>, lo: nat, hi: nat): set<int32>
      requires lo <= hi <= |vs|
      decreases hi
    {
      if hi == lo then {} else Image(vs, lo, hi - 1) + {vs[hi - 1]}
    }

    /** The union of the sets ks[lo..hi]. */
    static function Unite(ks: seq<set<TreeNode>>, lo: nat, hi: nat): set<TreeNode>
      requires lo <= hi <= |ks|
      decreases hi
    {
      if hi == lo then {} else Unite(ks, lo, hi - 1) + ks[hi - 1]
    }

    /** Image holds exactly the elements of the range. */
    static lemma {:induction false} ImageMembers(vs: seq<int32>, lo: nat, hi: nat)
      requires lo <= hi <= |vs|
      ensures forall k | lo <= k < hi :: vs[k] in Image(vs, lo, hi)
      ensures forall x | x in Image(vs, lo, hi) :: exists k | lo <= k < hi :: vs[k] == x
      decreases hi
    {
      if hi > lo {
        ImageMembers(vs, lo, hi - 1);
      }
    }

    /** Unite holds exactly the members of the sets of the range. */
    static lemma {:induction false} UniteMembers(ks: seq<set<TreeNode>>, lo: nat, hi: nat)
      requires lo <= hi <= |ks|
      ensures forall k | lo <= k < hi :: ks[k] <= Unite(ks, lo, hi)
      ensures forall n | n in Unite(ks, lo, hi) :: exists k | lo <= k < hi :: n in ks[k]
      decreases hi
    {
      if hi > lo {
        UniteMembers(ks, lo, hi - 1);
      }
    }

    /** The image of a range is its first element and the image of the rest. */
    static lemma {:induction false} ImageFirst(vs: seq<int32>, lo: nat, hi: nat)
      requires lo < hi <= |vs|
      ensures Image(vs, lo, hi) == {vs[lo]} + Image(vs, lo + 1, hi)
      decreases hi
    {
      if hi > lo + 1 {
        ImageFirst(vs, lo, hi - 1);
      }
    }

    /** The values of the nodes of c: the classes a contraction of c merges. */
    ghost function Members(c: seq<TreeNode>): set<int32>
      reads Repr
      requires forall k | 0 <= k < |c| :: c[k] in Repr
    {
      Image(Values(c), 0, |c|)
    }

    /** The children of the nodes of c: the nodes a contraction of c hands to the pivot. */
    ghost function Adopted(c: seq<TreeNode>): set<TreeNode>
      reads Repr
      requires forall k | 0 <= k < |c| :: c[k] in Repr
    {
      Unite(ChildSets(c), 0, |c|)
    }

    /**
     * From the old state to the new one, the nodes of c were contracted into
     * the pivot c[0]: the classes of their values (members) were merged and
     * are represented by the pivot's new value; the other nodes of c left the
     * index and the pivot is indexed under its new value; every child of a
     * node of c (adopted) took the pivot as parent, and the pivot took them
     * all as children. No other value, parent link or child set changed.
     */
    twostate predicate Contracted(c: seq<TreeNode>)
      reads this, uf, Repr
      requires |c| >= 1 && forall k | 0 <= k < |c| :: c[k] in Repr
    {
      var members, adopted := old(Members(c)), old(Adopted(c));
      && modifiedThisPhase
      && c[0].value in members
      && uf.rep == Merge(old(uf.rep), members, c[0].value)
      && nodeMap == (old(nodeMap) - members)[c[0].value := c[0]]
      && c[0].children == adopted
      && (forall n | n in Repr :: n.parent == if n in adopted then c[0] else old(n.parent))
      && (forall n | n in Repr && n != c[0] :: n.value == old(n.value) && n.children == old(n.children))
    }

    /**
     * What the invariant says about a cycle of live vertex nodes: its values
     * are representatives of the union-find (never -1), the only live nodes
     * with those values are its own, and the children of its nodes are
     * non-root nodes of Repr.
     */
    ghost predicate CycleIndexed(c: seq<TreeNode>)
      reads this, uf, Repr
      requires |c| >= 1 && forall k | 0 <= k < |c| :: c[k] in Repr
    {
      var members, adopted := Members(c), Adopted(c);
      && (forall k | 0 <= k < |c| :: c[k].value in members && c[k].children <= adopted)
      && (forall x | x in members :: x in uf.rep && uf.rep[x] == x && x != ROOT)
      && (forall n | n in Repr && IsLive(n) && n.value in members :: n in c)
      && adopted <= Repr && root !in adopted
    }

    /** The facts CycleIndexed collects follow from the invariant for a cycle of live vertex nodes. */
    lemma CycleFacts(c: seq<TreeNode>)
      requires Valid() && LiveCycle(c)
      ensures CycleIndexed(c)
    {
      var members, adopted := Members(c), Adopted(c);
      ImageMembers(Values(c), 0, |c|);
      UniteMembers(ChildSets(c), 0, |c|);
      forall x | x in members
        ensures x in uf.rep && uf.rep[x] == x && x != ROOT
      {
        var k :| 0 <= k < |c| && c[k].value == x;
        assert IsLive(c[k]);
      }
      forall n | n in Repr && IsLive(n) && n.value in members
        ensures n in c
      {
        var k :| 0 <= k < |c| && c[k].value == n.value;
        assert IsLive(c[k]);
      }
      forall m | m in adopted
        ensures m in Repr && m != root
      {
        var k :| 0 <= k < |c| && m in c[k].children;
      }
    }

    /** Contracting a cycle keeps the root, the footprint and the links inside Repr. */
    twostate lemma ContractedShaped(c: seq<TreeNode>)
      requires old(Shaped()) && old(LiveCycle(c)) && old(CycleIndexed(c))
      requires Contracted(c)
      ensures Shaped()
    {
      forall n | n in Repr
        ensures n.parent == null || n.parent in Repr
        ensures n.children <= Repr && root !in n.children
      {
        assert old(n.parent == null || n.parent in Repr);
        assert old(n.children <= Repr && root !in n.children);
      }
    }

    /** After a contraction, nodeMap keys each node by its value, and vertex nodes by representatives. */
    twostate lemma ContractedKeys(c: seq<TreeNode>)
      requires old(Indexed()) && old(LiveCycle(c)) && old(CycleIndexed(c))
      requires Contracted(c)
      ensures forall k | k in nodeMap :: nodeMap[k] in Repr && nodeMap[k].value == k
      ensures forall k | k in nodeMap && k != ROOT :: k in ids && uf.rep[k] == k
    {
      var members := old(Members(c));
      var pivot, keep, rep0 := c[0], c[0].value, old(uf.rep);
      forall k | k in nodeMap
        ensures nodeMap[k] in Repr && nodeMap[k].value == k
        ensures k != ROOT ==> k in ids && uf.rep[k] == k
      {
        if k != keep {
          assert old(k in nodeMap && nodeMap[k] in Repr && nodeMap[k].value == k);
          assert old(nodeMap[k]) != pivot;
          assert k !in members && (k != ROOT ==> rep0[k] == k);
        }
      }
    }

    /** After a contraction, every class's representative still has a live node. */
    twostate lemma ContractedReps(c: seq<TreeNode>)
      requires old(Indexed()) && old(LiveCycle(c)) && old(CycleIndexed(c))
      requires Contracted(c)
      ensures forall x | x in ids :: uf.rep[x] in nodeMap
    {
      forall x | x in ids
        ensures uf.rep[x] in nodeMap
      {
        assert old(uf.rep[x] in nodeMap);
      }
    }

    /** Contracting a cycle keeps the index: the pivot is keyed by the merged class's representative. */
    twostate lemma ContractedIndexed(c: seq<TreeNode>)
      requires old(Indexed()) && old(LiveCycle(c)) && old(CycleIndexed(c))
      requires Contracted(c)
      ensures Indexed()
    {
      assert old(uf.Valid());
      MergeProperties(old(uf.rep), old(Members(c)), c[0].value);
      ContractedKeys(c);
      ContractedReps(c);
    }

    /** Contracting a cycle keeps every live vertex node linked to a live parent. */
    twostate lemma ContractedLinked(c: seq<TreeNode>)
      requires old(Indexed()) && old(Linked()) && old(LiveCycle(c)) && old(CycleIndexed(c))
      requires Contracted(c)
      ensures Linked()
    {
      var members, adopted := old(Members(c)), old(Adopted(c));
      var pivot, keep := c[0], c[0].value;
      forall n | n in Repr && n != root && IsLive(n)
        ensures n.parent != null && n.parent in Repr && IsLive(n.parent) && n in n.parent.children
      {
        if n !in adopted {
          assert old(IsLive(n)) by {
            if n != pivot {
              assert n.value != keep;
              assert old(n.value in nodeMap && nodeMap[n.value] == n);
            }
          }
          var q := old(n.parent);
          assert old(q != null && q in Repr && IsLive(q) && n in q.children);
          assert q !in c;
          assert q.value == old(q.value) && old(q.value) !in members;
        }
      }
    }

    /**
     * The loop of processBackward over the cycle's nodes after the pivot
     * c[0]: each leaves the index, its children are collected with the
     * pivot's, and its class is merged with the pivot's.
     */
    method MergeCycle(c: seq<TreeNode>, ghost vs: seq<int32>, ghost ks: seq<set<TreeNode>>) returns (newChildren: set<TreeNode>)
      requires |c| >= 1 && |vs| == |c| && |ks| == |c|
      requires forall k | 0 <= k < |c| :: c[k].value == vs[k] && c[k].children == ks[k]
      requires forall k | 0 <= k < |c| :: vs[k] in uf.rep && uf.rep[vs[k]] == vs[k]
      requires forall k, l | 0 <= k < l < |c| :: vs[k] != vs[l]
      modifies this`nodeMap, uf
      ensures uf.rep.Keys == old(uf.rep.Keys)
      ensures nodeMap == old(nodeMap) - Image(vs, 1, |c|)
      ensures uf.rep[vs[0]] in Image(vs, 0, |c|)
      ensures uf.rep == Merge(old(uf.rep), Image(vs, 0, |c|), uf.rep[vs[0]])
      ensures newChildren == Unite(ks, 0, |c|)
    {
      var pivot := c[0];
      var pv := pivot.value;
      newChildren := pivot.children;
      ghost var keep := pv;
      MergeOne(uf.rep, keep);
      for i := 1 to |c|
        invariant nodeMap == old(nodeMap) - Image(vs, 1, i)
        invariant uf.rep.Keys == old(uf.rep.Keys)
        invariant keep in Image(vs, 0, i) && uf.rep[pv] == keep
        invariant uf.rep == Merge(old(uf.rep), Image(vs, 0, i), keep)
        invariant newChildren == Unite(ks, 0, i)
      {
        var toContract := c[i];
        var tv := toContract.value;
        ImageMembers(vs, 0, i);
        assert tv !in Image(vs, 0, i);
        // Remove from the index and keep the children
        nodeMap := nodeMap - {tv};
        newChildren := newChildren + toContract.children;
        // Merge the classes
        ghost var before := keep;
        uf.Union(pv, tv);
        keep := uf.rep[pv];
        MergeCompose(old(uf.rep), Image(vs, 0, i), before, tv, keep);
      }
    }

    /** Makes p the parent of every node in children. */
    static method Adopt(children: set<TreeNode>, p: TreeNode)
      modifies children`parent
      ensures forall n | n in children :: n.parent == p
    {
      var todo := children;
      while todo != {}
        invariant todo <= children
        invariant forall n | n in children - todo :: n.parent == p
        decreases todo
      {
        var child :| child in todo;
        child.SetParent(p);
        todo := todo - {child};
      }
    }

    /** Dropping the keys of a cycle's other values, then the pivot's, drops them all. */
    static lemma DropCycleKeys(m: map<int32, TreeNode>, vs: seq<int32>)
      requires |vs| >= 1
      ensures m - Image(vs, 1, |vs|) - {vs[0]} == m - Image(vs, 0, |vs|)
    {
      ImageFirst(vs, 0, |vs|);
    }

    /**
     * The contraction of processBackward: the union-find merges the classes
     * of the cycle's values, the pivot c[0] takes all the cycle's children
     * (each of which takes the pivot as parent) and is relabelled with the
     * representative of the merged class.
     */
    method ContractCycle(c: seq<TreeNode>)
      requires |c| >= 2 && LiveCycle(c) && CycleIndexed(c) && uf.Valid()
      modifies this`nodeMap, this`modifiedThisPhase, uf, Repr
      ensures Contracted(c)
    {
      ghost var vs, ks := Values(c), ChildSets(c);
      ghost var before := nodeMap;
      var pivot := c[0];
      var newChildren := MergeCycle(c, vs, ks);
      DropCycleKeys(before, vs);
      MergeProperties(old(uf.rep), Image(vs, 0, |c|), uf.rep[vs[0]]);
      // The source subtracts a one-element set holding the cycle list itself
      // from newChildren; no node equals a list, so nothing is removed.
      Adopt(newChildren, pivot);
      pivot.SetChildren(newChildren);
      // Relabel the contracted node with its class's representative
      var oldValue := pivot.value;
      nodeMap := nodeMap - {oldValue};
      assert nodeMap == before - Image(vs, 0, |c|);
      var newValue := uf.Find(oldValue).value;
      pivot.SetValue(newValue);
      nodeMap := nodeMap[newValue := pivot];
      modifiedThisPhase := true;
    }

    /**
     * `processBackward(e)` for a backward edge (u, v): the cycle findCycle
     * returns (v, then u and its ancestors below v) is contracted into v. A
     * cycle of one node, which a loop (u, u) gives, throws before anything
     * changes.
     */
    method ProcessBackward(e: Edge) returns (r: Result<Option<Edge>>)
      requires Valid() && Translated(e) && IsBackward(e) == Ok(true)
      modifies this`nodeMap, this`modifiedThisPhase, uf, Repr
      ensures Valid()
      ensures e.i == e.j ==> r == Err(ShortCycle) && unchanged(this, uf, Repr)
      ensures e.i != e.j ==> r == Ok(None)
      ensures e.i != e.j ==>
                && old(FindCycle(nodeMap[e.i], nodeMap[e.j])).Ok?
                && var c := old(FindCycle(nodeMap[e.i], nodeMap[e.j])).value;
                   && old(IsBackwardCycle(c, nodeMap[e.i], nodeMap[e.j])) && |c| >= 2
                   && Contracted(c)
    {
      var u := GetNode(e.i).value;
      var v := GetNode(e.j).value;
      BackwardCycle(e);
      var cycle := FindCycle(u, v).value;
      CycleFacts(cycle);
      if |cycle| < 2 {
        return Err(ShortCycle);
      }
      ContractCycle(cycle);
      ContractedShaped(cycle);
      ContractedIndexed(cycle);
      ContractedLinked(cycle);
      r := Ok(None);
    }

    // ---------------------------------------------------------------
    // processEdge
    // ---------------------------------------------------------------

    /**
     * A contracted backward edge (u, v) leaves u and v in one class, and the
     * union-find's classes only merged.
     */
    twostate lemma ContractedMerges(c: seq<TreeNode>, new e: Edge)
      requires old(Valid()) && old(Translated(e))
      requires old(IsBackwardCycle(c, nodeMap[e.i], nodeMap[e.j])) && |c| >= 2
      requires Contracted(c)
      ensures Coarsens(old(uf.rep), uf.rep)
      ensures e.i in uf.rep && e.j in uf.rep && uf.rep[e.i] == uf.rep[e.j]
    {
      var members := old(Members(c));
      MergeCoarsens(old(uf.rep), members, c[0].value);
      ImageMembers(old(Values(c)), 0, |c|);
      assert old(c[0].value) == e.j && old(c[1].value) == e.i;
      assert e.j in members && e.i in members;
      assert old(uf.rep[e.i]) == e.i && old(uf.rep[e.j]) == e.j;
    }

    /** The head of a non-init edge hangs under a live vertex node. */
    lemma NonInitParent(e: Edge)
      requires Valid() && Translated(e) && IsInit(e) == Ok(false)
      ensures var p := nodeMap[e.j].parent;
                p != null && p in Repr && p != root && p.value != ROOT && p.value in nodeMap && nodeMap[p.value] == p
    {
      var v := nodeMap[e.j];
      assert v in Repr && v != root && IsLive(v);
    }

    /**
     * What processEdge did with the translated edge t, by the branch the old
     * state sends it to: the walks' stack overflow propagates with nothing
     * changed; an init edge sets the flag and fails exactly for a loop; a
     * self-loop or forward edge is dropped; a backward edge contracts the
     * cycle it closes, merging its endpoints' classes; a cross-forward edge
     * is passed on as it is; a cross-non-forward edge is re-parented and the
     * edge from the head's old parent is passed on.
     */
    twostate predicate Dispatched(t: Edge, new r: Result<Option<Edge>>)
      reads this, uf, Repr
      requires old(Valid()) && old(Translated(t))
    {
      match old(Classify(t))
      case Err(f) => r == Err(f) && unchanged(this, uf, Repr)
      case Ok(Init) =>
        && modifiedThisPhase
        && (r == Err(ShortCycle) <==> t.i == t.j)
        && (r.Ok? ==> r == Ok(None))
        && (r.Err? ==> r.error in {ShortCycle, StackOverflow})
      case Ok(SelfLoopOrForward) => r == Ok(None) && unchanged(this, uf, Repr)
      case Ok(Backward) =>
        && r == Ok(None) && modifiedThisPhase
        && t.i in uf.rep && t.j in uf.rep && uf.rep[t.i] == uf.rep[t.j]
        && old(FindCycle(nodeMap[t.i], nodeMap[t.j])).Ok?
        && Contracted(old(FindCycle(nodeMap[t.i], nodeMap[t.j])).value)
      case Ok(CrossForward) => r == Ok(Some(t)) && unchanged(this, uf, Repr)
      case Ok(CrossNonForward) =>
        r == Ok(Some(Edge(old(nodeMap[t.j].parent.value), t.j))) && Reparented(t)
    }

    /**
     * The work of `processEdge(graphEdge)`: translates the edge to the
     * classes of its endpoints (an endpoint the union-find does not hold
     * throws), then handles it by the first of the branches of Classify that
     * applies. The invariant is kept, classes only merge, the flag is never
     * cleared, and an edge passed on joins two live vertex nodes.
     */
    method Handle(graphEdge: Edge) returns (r: Result<Option<Edge>>)
      requires Valid()
      modifies this`nodeMap, this`modifiedThisPhase, uf, Repr
      ensures Valid()
      ensures Coarsens(old(uf.rep), uf.rep)
      ensures old(modifiedThisPhase) ==> modifiedThisPhase
      ensures r.Ok? && r.value.Some? ==> Translated(r.value.value)
      ensures old(TranslateEdge(graphEdge)).Err? ==> r == Err(NotInUnionFind) && unchanged(this, uf, Repr)
      ensures old(TranslateEdge(graphEdge)).Ok? ==> Dispatched(old(TranslateEdge(graphEdge)).value, r)
    {
      CoarsensRefl(uf.rep);
      var t :- TranslateEdge(graphEdge);
      var kind :- Classify(t);
      if kind == Init {
        ProcessInit(t);
        label Moved:
        if t.i == t.j {
          var v := nodeMap[t.j];
          assert v.parent == v;
        }
        var backward :- IsBackward(t);
        if backward {
          ghost var c := FindCycle(nodeMap[t.i], nodeMap[t.j]);
          r := ProcessBackward(t);
          if t.i != t.j {
            ContractedMerges@Moved(c.value, t);
            CoarsensTrans(old(uf.rep), old@Moved(uf.rep), uf.rep);
          }
        } else {
          r := Ok(None);
        }
      } else if kind == SelfLoopOrForward {
        r := Ok(None);
      } else if kind == Backward {
        ClassifyBackwardIsProper(t);
        ghost var c := FindCycle(nodeMap[t.i], nodeMap[t.j]);
        r := ProcessBackward(t);
        ContractedMerges(c.value, t);
      } else if kind == CrossForward {
        r := Ok(Some(t));
      } else {
        NonInitParent(t);
        var emitted := ProcessCrossNonForward(t);
        r := Ok(Some(emitted));
      }
    }

    /**
     * `processEdge(graphEdge)` as its callers see it: Handle, with the call
     * appended to the log. Recording the call changes none of the tree's
     * own fields.
     */
    method ProcessEdge(graphEdge: Edge) returns (r: Result<Option<Edge>>)
      requires Valid()
      modifies this`nodeMap, this`modifiedThisPhase, uf, Repr, log
      ensures Valid()
      ensures Coarsens(old(uf.rep), uf.rep)
      ensures old(modifiedThisPhase) ==> modifiedThisPhase
      ensures r.Ok? && r.value.Some? ==> Translated(r.value.value)
      ensures old(TranslateEdge(graphEdge)).Err? ==> r == Err(NotInUnionFind) && unchanged(this, uf, Repr)
      ensures old(TranslateEdge(graphEdge)).Ok? ==> Dispatched(old(TranslateEdge(graphEdge)).value, r)
      ensures log.calls == old(log.calls) + [Call(graphEdge, r, old(modifiedThisPhase), modifiedThisPhase)]
    {
      ghost var before := modifiedThisPhase;
      r := Handle(graphEdge);
      label Handled:
      log.calls := log.calls + [Call(graphEdge, r, before, modifiedThisPhase)];
      assert unchanged@Handled(this, uf, Repr);
    }

    // ---------------------------------------------------------------
    // Phases and components
    // ---------------------------------------------------------------

    /** `startPhase()`: clears the modified flag, so the tree reads as complete until an edge changes it. */
    method StartPhase()
      modifies this`modifiedThisPhase
      ensures !modifiedThisPhase && IsComplete()
      ensures old(Valid()) ==> Valid()
    {
      modifiedThisPhase := false;
    }

    /** `isComplete()`: no edge changed the tree since the phase began. */
    function IsComplete(): (b: bool)
      reads this
      ensures b <==> !modifiedThisPhase
    {
      !modifiedThisPhase
    }

    /**
     * `getKeyedComponents()`: ids 0 .. uf.size()-1 grouped by their
     * representative, built one id at a time; an id the union-find does not
     * hold throws from find.
     */
    method GetKeyedComponents() returns (r: Result<map<int32, set<int32>>>)
      requires Valid()
      ensures r == KeyedComponents(uf.rep, |uf.rep| as int32)
    {
      var n := uf.Size() as int32;
      var keyed: map<int32, set<int32>> := map[];
      var i: int32 := 0;
      while i < n
        invariant 0 <= i <= n
        invariant CoversIds(uf.rep, i) && keyed == Keyed(uf.rep, i)
      {
        var component :- uf.Find(i);
        var updated := if component in keyed then keyed[component] else {};
        updated := updated + {i};
        KeyedStep(uf.rep, i);
        keyed := keyed[component := updated];
        i := i + 1;
      }
      r := Ok(keyed);
    }
  }
}
