# fastls-java: the look-select tree and its streaming driver

fastls-java finds the strongly connected components of a directed graph
whose edges arrive as a stream. The graph is read in phases. It keeps two
structures:

- a union-find over the vertex ids, whose classes become the components;
- a look-select tree (LS-tree). Each live tree node stands for one class and
  is keyed by that class's representative.

Each edge is first translated to the classes of its endpoints. It is then
classified against the tree; the outcome depends on the class:

- dropped (an edge to itself whose head no longer hangs from the root, or
  a forward edge); an edge to itself whose head still hangs from the root
  is an init edge and fails with "at least 2 vertices";
- used to re-parent one node (an init edge, or a cross edge that is not
  forward);
- used to contract a cycle of nodes into one (a backward edge);
- handed back.

Handed-back edges are spilled, one `i,j` record per line after a header
line holding the node count. The spill is the next phase's stream. Phases
repeat until one spills nothing or leaves the tree unchanged. The result
groups the ids `0..n-1` by their representative.

The project has one module per source entity:

- `Edges`: Edge.java, as a datatype.
- `TreeNodes`: TreeNode.java, as a class with `value`, `parent` and
  `children` fields that its methods update.
- `UnionFinds`: the union-find's contract, as a map from each element to its
  representative.
- `LSTrees`: LSTree.java, as a class. Its invariant `Valid` is proved to be
  kept by every operation.
- `EdgeStreams`: EdgeStream.java, its two iterators and the line reader they
  read from.
- `LookSelect`: LookSelectImpl.java, the phase driver.
- Support modules:
  - `JavaLang`: the Java built-ins the core relies on: `int`, the `(int)`
    cast, `String.format("%d")`, `Integer.parseInt` and `String.split`.
  - `Components`: the declarative meaning of the keyed components.
  - `Walks`: a counting lemma.
  - `Results`: exceptions become `Result` values.

The source recurses along parent links in `depthRecursive`, `isAncestor` and
`findCycleRecursive`. These recursions have no bound of their own, so the
model bounds them by the number of nodes the tree ever allocated, and
reports a bound that runs out as `StackOverflow`. For `depthRecursive` and
`isAncestor`, lemmas prove that the bound runs out exactly when the
source's recursion would never end. For `findCycleRecursive`,
FindCycleMeaning states what a search returns when it succeeds, and
BackwardCycle proves that the search succeeds at its one call site,
`processBackward`, which both the init branch and the backward branch of
`processEdge` reach. No lemma states in general when that
search overflows.

Every call of `processEdge` is recorded in a ghost log of the tree: the edge,
the result, and the modified flag before and after the call. `LSTrees.LSTree.ProcessEdge`
is the only member that writes the log. The streaming driver states what it
did in terms of the calls it added to the log.

Behaviours of the code that are easy to misread:

- **The pivot becomes its own parent.** An init edge (u, v) that then closes
  a cycle is one such case. `processInit` puts v among u's children. The
  contraction that follows then sets the parent of every collected child to
  the pivot v, v included. Nothing re-attaches the contracted node under the
  root. `LSTrees.LSTree.Valid` therefore does not claim the parent links form
  a tree.
- **The filter at LSTree.java:150 removes nothing.** It subtracts a set whose
  only element is the cycle list, and no tree node equals a list.
- **The spill holds the edge `processEdge` returns**, not the edge that was
  read.
- **The cross-forward test is `depth(u) < depth(v)`.**
- **`isSelfLoop` compares `Integer` references.** Equal ids outside the
  `Integer` cache (-128..127) compare unequal. `ClassifySelfLoop` shows that
  this does not change which branch is taken.
- **A reader iterator never yields an edge.** It starts with no line held
  and `isFlushed` unset, so its first `hasNext` answers false without reading.
  Every phase over a spill therefore reads nothing, and at most two phases run.

## Model

Source paths are relative to the repository root.

| member | source | states |
|---|---|---|
| Edges.ToStringSplits | fastls-api/src/main/java/com/github/rahulsmehta/fastls/api/Edge.java:12-14 | splitting the record of an edge on ',' gives back exactly the decimal forms of its two ids, in order |
| TreeNodes.TreeNode.constructor | fastls-api/src/main/java/com/github/rahulsmehta/fastls/api/TreeNode.java:16-20 | a new node has the given value and parent and no children |
| TreeNodes.TreeNode.SetValue | fastls-api/src/main/java/com/github/rahulsmehta/fastls/api/TreeNode.java:27-29 | only the value changes, to the argument |
| TreeNodes.TreeNode.SetParent | fastls-api/src/main/java/com/github/rahulsmehta/fastls/api/TreeNode.java:35-37 | only the parent link changes, to the argument (null allowed) |
| TreeNodes.TreeNode.SetChildren | fastls-api/src/main/java/com/github/rahulsmehta/fastls/api/TreeNode.java:43-45 | the child set becomes a copy of the argument; nothing else changes |
| TreeNodes.TreeNode.AddChild | fastls-api/src/main/java/com/github/rahulsmehta/fastls/api/TreeNode.java:47-49 | the child set gains the child and keeps every old child |
| TreeNodes.TreeNode.AddChildren | fastls-api/src/main/java/com/github/rahulsmehta/fastls/api/TreeNode.java:51-53 | the child set becomes the union of the old one and the argument |
| TreeNodes.TreeNode.RemoveChild | fastls-api/src/main/java/com/github/rahulsmehta/fastls/api/TreeNode.java:55-57 | the child leaves the set, and the answer is true exactly when it was in it |
| TreeNodes.TreeNode.RemoveChildren | fastls-api/src/main/java/com/github/rahulsmehta/fastls/api/TreeNode.java:59-61 | the given nodes leave the set, and the answer is true exactly when one of them was in it |
| TreeNodes.TreeNode.Equals | fastls-api/src/main/java/com/github/rahulsmehta/fastls/api/TreeNode.java:63-69 | a node equals itself, and the answer reads only the two nodes' values, never their parents or children |
| UnionFinds.RepIsRoot | fastls-api/src/main/java/com/github/rahulsmehta/fastls/api/LSTree.java:46 | a representative is an element and is its own representative |
| UnionFinds.Merge | fastls-api/src/main/java/com/github/rahulsmehta/fastls/api/LSTree.java:148 | merging classes keeps the set of elements |
| UnionFinds.MergeProperties | fastls-api/src/main/java/com/github/rahulsmehta/fastls/api/LSTree.java:148 | after a merge the map is still a representative map; the merged classes' elements map to the new representative and all others keep theirs |
| UnionFinds.MergeJoins | fastls-api/src/main/java/com/github/rahulsmehta/fastls/api/LSTree.java:148 | elements that shared a representative still share one after a merge |
| UnionFinds.CoarsensJoins | fastls-api/src/main/java/com/github/rahulsmehta/fastls/api/LSTree.java:142-149 | when classes only merge, two elements of one class stay in one class |
| UnionFinds.CoarsensRefl | fastls-api/src/main/java/com/github/rahulsmehta/fastls/api/LSTree.java:229-230 | changing nothing counts as classes only merging |
| UnionFinds.MergeCoarsens | fastls-api/src/main/java/com/github/rahulsmehta/fastls/api/LSTree.java:148 | a merge only merges classes: the elements are the same, and every element's new representative is that of its old representative |
| UnionFinds.CoarsensTrans | fastls-api/src/main/java/com/github/rahulsmehta/fastls/api/LookSelectImpl.java:47-54 | two steps that only merge classes together only merge classes |
| UnionFinds.MergeOne | fastls-api/src/main/java/com/github/rahulsmehta/fastls/api/LSTree.java:139-141 | merging one class with itself changes nothing (a contraction before any union) |
| UnionFinds.MergeCompose | fastls-api/src/main/java/com/github/rahulsmehta/fastls/api/LSTree.java:142-149 | merging a set of classes and then one more is the same as merging them all at once: the loop invariant of the contraction |
| UnionFinds.UnionFind.constructor | fastls-api/src/main/java/com/github/rahulsmehta/fastls/api/LSTree.java:18 | every given element is alone in its own class |
| UnionFinds.UnionFind.Find | fastls-api/src/main/java/com/github/rahulsmehta/fastls/api/LSTree.java:46 | find succeeds exactly for an element, and returns that element's own representative, which represents itself; otherwise it throws IllegalArgumentException |
| UnionFinds.UnionFind.Union | fastls-api/src/main/java/com/github/rahulsmehta/fastls/api/LSTree.java:148 | the two classes become one, represented by one of their two representatives; no other element changes class; the invariant is kept and classes only merge |
| Walks.DistinctBound | fastls-api/src/main/java/com/github/rahulsmehta/fastls/api/LSTree.java:82-87 | a walk of pairwise distinct nodes is no longer than the set of nodes it stays in |
| JavaLang.NarrowToInt | fastls-api/src/main/java/com/github/rahulsmehta/fastls/api/EdgeStream.java:18-21 | the `(int)` cast of a count keeps it when it fits in an int, and otherwise agrees with it modulo 2^32 |
| JavaLang.DigitChar | fastls-api/src/main/java/com/github/rahulsmehta/fastls/api/Edge.java:13 | a digit d below ten becomes the character '0' + d |
| JavaLang.Digits | fastls-api/src/main/java/com/github/rahulsmehta/fastls/api/Edge.java:13 | the decimal form of a number has at least one digit |
| JavaLang.FormatShape | fastls-api/src/main/java/com/github/rahulsmehta/fastls/api/Edge.java:13 | the decimal form of an int is non-empty, starts with '-' exactly when the int is negative, and is digits after that sign |
| JavaLang.DigitsAreDigits | fastls-api/src/main/java/com/github/rahulsmehta/fastls/api/Edge.java:13 | the decimal form of n is all digits and denotes n |
| JavaLang.ParseInt | fastls-api/src/main/java/com/github/rahulsmehta/fastls/api/EdgeStream.java:34 | succeeds only for an optional sign followed by at least one digit; any other string, or a value that does not fit in an int, is a NumberFormatException |
| JavaLang.ParseIntOfDigits | fastls-api/src/main/java/com/github/rahulsmehta/fastls/api/EdgeStream.java:106 | a string of digits parses to its value when that is below 2^31, and is a NumberFormatException otherwise |
| JavaLang.ParseIntOfPlus | fastls-api/src/main/java/com/github/rahulsmehta/fastls/api/EdgeStream.java:106 | a leading '+' does not change the result |
| JavaLang.ParseIntOfMinus | fastls-api/src/main/java/com/github/rahulsmehta/fastls/api/EdgeStream.java:106 | '-' followed by digits parses to the negated value when that is at least -2^31, and is a NumberFormatException otherwise |
| JavaLang.FormatRoundTrip | fastls-api/src/main/java/com/github/rahulsmehta/fastls/api/LookSelectImpl.java:44-45 | parsing the decimal form of any int, negative ones included, gives that int back |
| JavaLang.FormatHasNoComma | fastls-api/src/main/java/com/github/rahulsmehta/fastls/api/Edge.java:13 | the decimal form of an int never contains a comma |
| JavaLang.Split | fastls-api/src/main/java/com/github/rahulsmehta/fastls/api/EdgeStream.java:105 | a string without the separator splits into itself alone; no field holds the separator; a string with the separator yields no trailing empty field |
| JavaLang.Fields | fastls-api/src/main/java/com/github/rahulsmehta/fastls/api/EdgeStream.java:105 | there is one more field than separators, and no field holds the separator |
| JavaLang.DropTrailingEmpty | fastls-api/src/main/java/com/github/rahulsmehta/fastls/api/EdgeStream.java:105 | the result is the longest prefix that does not end in an empty string; everything dropped is empty |
| JavaLang.FieldsOfPrefix | fastls-api/src/main/java/com/github/rahulsmehta/fastls/api/EdgeStream.java:105 | a separator-free prefix joins onto the first field |
| JavaLang.SplitOfJoin | fastls-api/src/main/java/com/github/rahulsmehta/fastls/api/EdgeStream.java:105 | two separator-free strings, the second non-empty, joined by the separator split back into exactly those two |
| Components.KeyedComponents | fastls-api/src/main/java/com/github/rahulsmehta/fastls/api/LSTree.java:50-59 | the grouping fails exactly when some id below n is missing from the union-find, and then with find's exception |
| Components.KeyedIsPartition | fastls-api/src/main/java/com/github/rahulsmehta/fastls/api/LSTree.java:50-59 | the grouping partitions 0..n-1. Each id is in the set keyed by its representative and in no other, and no set is empty. Two ids share a set exactly when they share a representative. With a valid union-find every key is a representative. |
| Components.KeyedStep | fastls-api/src/main/java/com/github/rahulsmehta/fastls/api/LSTree.java:53-56 | adding id n puts it into the set of its representative, or into a new set: one turn of the source's loop |
| LSTrees.LSTree.constructor | fastls-api/src/main/java/com/github/rahulsmehta/fastls/api/LSTree.java:17-35 | every vertex is a childless leaf under the root and alone in its class; nodes are keyed by the root's -1 and the vertex ids; the flag is unset; the invariant holds |
| LSTrees.LSTree.InitialValid | fastls-api/src/main/java/com/github/rahulsmehta/fastls/api/LSTree.java:21-32 | the tree the constructor builds satisfies the invariant |
| LSTrees.LSTree.NewTree | fastls-api/src/main/java/com/github/rahulsmehta/fastls/api/LSTree.java:21-32 | builds fresh nodes: a root and one leaf under it per id, keyed by -1 and by the ids |
| LSTrees.LSTree.NewLeaves | fastls-api/src/main/java/com/github/rahulsmehta/fastls/api/LSTree.java:24-32 | one fresh childless leaf per id, with that id as value and the root as parent, keyed by its id |
| LSTrees.LSTree.Up | fastls-api/src/main/java/com/github/rahulsmehta/fastls/api/LSTree.java:82-87 | every node reached along parent links belongs to the tree's footprint |
| LSTrees.LSTree.UpPrefix | fastls-api/src/main/java/com/github/rahulsmehta/fastls/api/LSTree.java:82-87 | a walk that reaches step k passes through every earlier step, each with a parent |
| LSTrees.LSTree.UpAdd | fastls-api/src/main/java/com/github/rahulsmehta/fastls/api/LSTree.java:82-87 | walking a + b links is walking a links and then b more |
| LSTrees.LSTree.Walk | fastls-api/src/main/java/com/github/rahulsmehta/fastls/api/LSTree.java:169-175 | the first n nodes of the walk from a node, in order |
| LSTrees.LSTree.WalkDistinct | fastls-api/src/main/java/com/github/rahulsmehta/fastls/api/LSTree.java:82-87 | a walk repeats no node before it first meets a given set |
| LSTrees.LSTree.FirstHitBound | fastls-api/src/main/java/com/github/rahulsmehta/fastls/api/LSTree.java:82-87 | a walk that first meets a set after k links has k below the number of allocated nodes |
| LSTrees.LSTree.DepthRecursive | fastls-api/src/main/java/com/github/rahulsmehta/fastls/api/LSTree.java:82-87 | the result is at least the depth so far; it fails only with a stack overflow, and does so when the bound is spent before a parentless node |
| LSTrees.LSTree.Depth | fastls-api/src/main/java/com/github/rahulsmehta/fastls/api/LSTree.java:78-80 | depth(u) is 0 exactly for a parentless node, and fails only with a stack overflow (its full meaning is DepthMeaning) |
| LSTrees.LSTree.DepthRecursiveAt | fastls-api/src/main/java/com/github/rahulsmehta/fastls/api/LSTree.java:82-87 | a walk that reaches a parentless node after k links returns depth + k when the bound allows k links, and overflows otherwise |
| LSTrees.LSTree.DepthRecursiveNever | fastls-api/src/main/java/com/github/rahulsmehta/fastls/api/LSTree.java:82-87 | a walk that never reaches a parentless node overflows under any bound |
| LSTrees.LSTree.DepthMeaning | fastls-api/src/main/java/com/github/rahulsmehta/fastls/api/LSTree.java:78-87 | depth(u) is k exactly when the walk from u reaches a parentless node after k links; it overflows exactly when the walk never does, and fails no other way |
| LSTrees.LSTree.DepthStep | fastls-api/src/main/java/com/github/rahulsmehta/fastls/api/LSTree.java:82-87 | a parentless node has depth 0; any other node has its parent's depth plus one, or its parent's overflow |
| LSTrees.LSTree.IsAncestorWithin | fastls-api/src/main/java/com/github/rahulsmehta/fastls/api/LSTree.java:92-100 | true only when v has a parent; fails only with a stack overflow |
| LSTrees.LSTree.IsAncestor | fastls-api/src/main/java/com/github/rahulsmehta/fastls/api/LSTree.java:92-100 | true only when v has a parent, and always when v has a parent and equals u; fails only with a stack overflow (its full meaning is IsAncestorMeaning) |
| LSTrees.LSTree.IsAncestorAt | fastls-api/src/main/java/com/github/rahulsmehta/fastls/api/LSTree.java:92-100 | when the walk first stops after k links, isAncestor answers whether that node has a parent if the bound allows k links, and overflows otherwise |
| LSTrees.LSTree.IsAncestorNever | fastls-api/src/main/java/com/github/rahulsmehta/fastls/api/LSTree.java:92-100 | a walk that never stops overflows under any bound |
| LSTrees.LSTree.FirstStopOf | fastls-api/src/main/java/com/github/rahulsmehta/fastls/api/LSTree.java:92-100 | a walk that stops somewhere has a first stop no later than that |
| LSTrees.LSTree.FirstStopBound | fastls-api/src/main/java/com/github/rahulsmehta/fastls/api/LSTree.java:92-100 | the first stop comes before the number of allocated nodes, so the bound does not cut a walk short |
| LSTrees.LSTree.IsAncestorMeaning | fastls-api/src/main/java/com/github/rahulsmehta/fastls/api/LSTree.java:92-100 | isAncestor(u, v) walks up from v to the first node that is parentless or equal to u, and answers whether it has a parent; it overflows exactly when no such node is reached, and fails no other way |
| LSTrees.LSTree.IsAncestorTrue | fastls-api/src/main/java/com/github/rahulsmehta/fastls/api/LSTree.java:92-100 | a true answer means the walk from v meets a non-root node equal to u |
| LSTrees.LSTree.FindCycleRecursive | fastls-api/src/main/java/com/github/rahulsmehta/fastls/api/LSTree.java:169-175 | the result extends the cycle built so far, with nodes of the tree |
| LSTrees.LSTree.FindCycle | fastls-api/src/main/java/com/github/rahulsmehta/fastls/api/LSTree.java:165-167 | a found cycle starts with v and consists of nodes of the tree |
| LSTrees.LSTree.FindCycleAt | fastls-api/src/main/java/com/github/rahulsmehta/fastls/api/LSTree.java:169-175 | within the bound, the recursion appends the first k nodes of the walk from u to the cycle built so far |
| LSTrees.LSTree.FindCycleMeaning | fastls-api/src/main/java/com/github/rahulsmehta/fastls/api/LSTree.java:165-175 | when the walk from u first reaches a node equal to v, and that node has a parent, findCycle(u, v) is v followed by the nodes of the walk before that node |
| LSTrees.LSTree.GetNode | fastls-api/src/main/java/com/github/rahulsmehta/fastls/api/LSTree.java:37-43 | a node is returned exactly for a live key, and it is the node keyed by it; otherwise the "dead node" IllegalStateException |
| LSTrees.LSTree.TranslateEdge | fastls-api/src/main/java/com/github/rahulsmehta/fastls/api/LSTree.java:45-47 | succeeds exactly when both endpoints are vertex ids; the result joins their representatives, which are live vertex nodes |
| LSTrees.LSTree.IsInit | fastls-api/src/main/java/com/github/rahulsmehta/fastls/api/LSTree.java:104-107 | whether the head's node hangs directly under the root; a dead head throws IllegalStateException and the root as head a NullPointerException |
| LSTrees.LSTree.IsSelfLoop | fastls-api/src/main/java/com/github/rahulsmehta/fastls/api/LSTree.java:214-216 | true only for equal endpoints, and always for equal endpoints within the Integer cache |
| LSTrees.LSTree.IsForward | fastls-api/src/main/java/com/github/rahulsmehta/fastls/api/LSTree.java:208-212 | for live endpoints, isAncestor(tail, head); otherwise the dead-node exception |
| LSTrees.LSTree.IsBackward | fastls-api/src/main/java/com/github/rahulsmehta/fastls/api/LSTree.java:122-126 | for live endpoints, isAncestor(head, tail); otherwise the dead-node exception |
| LSTrees.LSTree.IsCrossForward | fastls-api/src/main/java/com/github/rahulsmehta/fastls/api/LSTree.java:177-182 | false for a forward or backward edge. For an edge of live endpoints that is neither, both depths are known and the answer is depth(u) < depth(v). Fails only with a dead node or an overflow. |
| LSTrees.LSTree.IsCrossNonForward | fastls-api/src/main/java/com/github/rahulsmehta/fastls/api/LSTree.java:184-189 | false for a forward or backward edge. For an edge of live endpoints that is neither, both depths are known and the answer is depth(u) >= depth(v). Fails only with a dead node or an overflow. |
| LSTrees.LSTree.AncestorFalseGivesDepth | fastls-api/src/main/java/com/github/rahulsmehta/fastls/api/LSTree.java:180-181 | when isAncestor(a, b) answers false, depth(b) does not overflow |
| LSTrees.LSTree.CrossCasesComplementary | fastls-api/src/main/java/com/github/rahulsmehta/fastls/api/LSTree.java:233-239 | an edge that is neither forward nor backward is exactly one of cross-forward and cross-non-forward, and neither test throws, so the "never reach here" branch is dead |
| LSTrees.LSTree.UpLive | fastls-api/src/main/java/com/github/rahulsmehta/fastls/api/LSTree.java:92-100 | every node reached from a live node along parent links is live |
| LSTrees.LSTree.BackwardWalk | fastls-api/src/main/java/com/github/rahulsmehta/fastls/api/LSTree.java:122-126 | for a true isAncestor(v, u), a node equal to v lies k links above u, the walk there repeats no node, and findCycle(u, v) is v followed by those k nodes |
| LSTrees.LSTree.WalkLive | fastls-api/src/main/java/com/github/rahulsmehta/fastls/api/LSTree.java:165-175 | the walk from a live node up to a live vertex node passes only live vertex nodes |
| LSTrees.LSTree.CycleOfWalk | fastls-api/src/main/java/com/github/rahulsmehta/fastls/api/LSTree.java:165-175 | in the cycle built from a walk, each node after v is the child of the next and the last is a child of v; no node repeats |
| LSTrees.LSTree.BackwardCycle | fastls-api/src/main/java/com/github/rahulsmehta/fastls/api/LSTree.java:128-135 | for a backward edge findCycle succeeds with the cycle the edge closes, and that cycle has one node exactly when the edge is a loop |
| LSTrees.LSTree.Classify | fastls-api/src/main/java/com/github/rahulsmehta/fastls/api/LSTree.java:219-239 | the branch of processEdge follows the source's order of tests, each branch implying the tests before it failed; the only error is a stack overflow |
| LSTrees.LSTree.ClassifySelfLoop | fastls-api/src/main/java/com/github/rahulsmehta/fastls/api/LSTree.java:214-216 | a non-init edge with equal endpoints is forward anyway, so the reference comparison in isSelfLoop does not change the branch |
| LSTrees.LSTree.ClassifyBackwardIsProper | fastls-api/src/main/java/com/github/rahulsmehta/fastls/api/LSTree.java:231-232 | an edge classified backward has distinct endpoints |
| LSTrees.LSTree.ReparentedValid | fastls-api/src/main/java/com/github/rahulsmehta/fastls/api/LSTree.java:109-120 | moving a live vertex node under another live node keeps the invariant |
| LSTrees.LSTree.ProcessInit | fastls-api/src/main/java/com/github/rahulsmehta/fastls/api/LSTree.java:109-120 | the head leaves the root's children, joins the tail's children and takes the tail as parent, and the flag is set; nothing else changes and the invariant is kept |
| LSTrees.LSTree.ProcessCrossNonForward | fastls-api/src/main/java/com/github/rahulsmehta/fastls/api/LSTree.java:191-206 | the head moves from its parent to the tail, exactly as for an init edge, and the edge from the old parent's value to the head is handed back |
| LSTrees.LSTree.Values | fastls-api/src/main/java/com/github/rahulsmehta/fastls/api/LSTree.java:142-148 | the values of a cycle's nodes, in order |
| LSTrees.LSTree.ChildSets | fastls-api/src/main/java/com/github/rahulsmehta/fastls/api/LSTree.java:141-146 | the child sets of a cycle's nodes, in order |
| LSTrees.LSTree.ImageMembers | fastls-api/src/main/java/com/github/rahulsmehta/fastls/api/LSTree.java:142-148 | the set of a range of values holds exactly those values |
| LSTrees.LSTree.UniteMembers | fastls-api/src/main/java/com/github/rahulsmehta/fastls/api/LSTree.java:141-146 | the union of a range of child sets holds exactly their members |
| LSTrees.LSTree.ImageFirst | fastls-api/src/main/java/com/github/rahulsmehta/fastls/api/LSTree.java:145-155 | the set of a range of values is its first value plus the set of the rest |
| LSTrees.LSTree.CycleFacts | fastls-api/src/main/java/com/github/rahulsmehta/fastls/api/LSTree.java:139-149 | under the invariant, a cycle of live vertex nodes has representative values, is the only holder of those values, and has non-root children |
| LSTrees.LSTree.ContractedShaped | fastls-api/src/main/java/com/github/rahulsmehta/fastls/api/LSTree.java:139-161 | a contraction keeps the root parentless and the links inside the footprint |
| LSTrees.LSTree.ContractedKeys | fastls-api/src/main/java/com/github/rahulsmehta/fastls/api/LSTree.java:145-159 | after a contraction every key holds a node with that value, and every vertex key is a representative |
| LSTrees.LSTree.ContractedReps | fastls-api/src/main/java/com/github/rahulsmehta/fastls/api/LSTree.java:145-159 | after a contraction every class's representative still has a live node |
| LSTrees.LSTree.ContractedIndexed | fastls-api/src/main/java/com/github/rahulsmehta/fastls/api/LSTree.java:145-159 | a contraction keeps the index, with the pivot under its class's representative |
| LSTrees.LSTree.ContractedLinked | fastls-api/src/main/java/com/github/rahulsmehta/fastls/api/LSTree.java:150-152 | a contraction keeps every live vertex node held by a live parent, the pivot included, even when the pivot becomes its own parent |
| LSTrees.LSTree.MergeCycle | fastls-api/src/main/java/com/github/rahulsmehta/fastls/api/LSTree.java:140-149 | the cycle's other nodes leave the index, all the cycle's child sets are collected, and all their classes are merged under a representative that is one of the cycle's values |
| LSTrees.LSTree.Adopt | fastls-api/src/main/java/com/github/rahulsmehta/fastls/api/LSTree.java:151 | every collected child takes the pivot as parent |
| LSTrees.LSTree.DropCycleKeys | fastls-api/src/main/java/com/github/rahulsmehta/fastls/api/LSTree.java:145-155 | removing the other values' keys and then the pivot's removes all the cycle's keys |
| LSTrees.LSTree.ContractCycle | fastls-api/src/main/java/com/github/rahulsmehta/fastls/api/LSTree.java:139-161 | the cycle is contracted into its first node. The classes of its values merge and are represented by the pivot's new value. Its other nodes leave the index and the pivot is keyed by its new value. Every collected child, the pivot included, takes the pivot as parent, and the pivot takes them all as children. Nothing else changes. |
| LSTrees.LSTree.ProcessBackward | fastls-api/src/main/java/com/github/rahulsmehta/fastls/api/LSTree.java:128-163 | a loop throws "at least 2 vertices" and changes nothing. Any other backward edge returns no edge and contracts the cycle findCycle gives, which has at least two nodes and is the cycle the edge closes. The invariant is kept. |
| LSTrees.LSTree.ContractedMerges | fastls-api/src/main/java/com/github/rahulsmehta/fastls/api/LSTree.java:142-149 | after contracting a backward edge's cycle, its endpoints are in one class and classes only merged |
| LSTrees.LSTree.NonInitParent | fastls-api/src/main/java/com/github/rahulsmehta/fastls/api/LSTree.java:196-197 | the head of a non-init edge has a live vertex node as parent, so processCrossNonForward dereferences no null |
| LSTrees.LSTree.ProcessEdge | fastls-api/src/main/java/com/github/rahulsmehta/fastls/api/LSTree.java:219-240 | the contract of Handle, and the call (edge, result, flag before it, flag after it) is appended to the tree's log |
| LSTrees.LSTree.Handle | fastls-api/src/main/java/com/github/rahulsmehta/fastls/api/LSTree.java:219-240 | keeps the invariant; classes only merge; the flag is never cleared; a handed-back edge joins two live vertex nodes; an endpoint outside the union-find throws and changes nothing. Otherwise, by Classify's branch: an overflow changes nothing; an init edge sets the flag, returns no edge, fails with "at least 2 vertices" exactly for a loop, and otherwise can fail only by overflow (reachable once a contracted pivot is its own parent, as after the edges (0,1), (1,0), (0,2)); a self-loop or forward edge is dropped; a backward edge returns no edge, contracts the cycle findCycle gives (as ContractCycle states) and puts its endpoints in one class; a cross-forward edge is handed back unchanged; a cross-non-forward edge is re-parented and hands back the edge from the old parent |
| LSTrees.LSTree.StartPhase | fastls-api/src/main/java/com/github/rahulsmehta/fastls/api/LSTree.java:65-67 | the flag is cleared, so the tree reads as complete, and the invariant is kept |
| LSTrees.LSTree.IsComplete | fastls-api/src/main/java/com/github/rahulsmehta/fastls/api/LSTree.java:69-71 | complete exactly when no edge changed the tree since the phase began |
| LSTrees.LSTree.GetKeyedComponents | fastls-api/src/main/java/com/github/rahulsmehta/fastls/api/LSTree.java:50-59 | the loop's map is the grouping of ids 0..size-1 by representative (see KeyedIsPartition), or find's exception for a missing id |
| EdgeStreams.LineReader.constructor | fastls-api/src/main/java/com/github/rahulsmehta/fastls/api/LookSelectImpl.java:58-61 | a new reader has every line still to read |
| EdgeStreams.LineReader.ReadLine | fastls-api/src/main/java/com/github/rahulsmehta/fastls/api/EdgeStream.java:30 | returns the next line and consumes it, or null at the end, consuming nothing |
| EdgeStreams.ParseEdge | fastls-api/src/main/java/com/github/rahulsmehta/fastls/api/EdgeStream.java:104-107 | no field is an index-out-of-bounds error; a first field that is not an int is a NumberFormatException; after a good first field, a missing second field is an index-out-of-bounds error and a bad one a NumberFormatException; with two good fields it succeeds, with their values as the ids |
| EdgeStreams.ParseEdgeRoundTrip | fastls-api/src/main/java/com/github/rahulsmehta/fastls/api/EdgeStream.java:104-107 | parsing the record of any edge, negative ids included, gives that edge back |
| EdgeStreams.Endpoints | fastls-api/src/main/java/com/github/rahulsmehta/fastls/api/EdgeStream.java:18-21 | exactly the ids that are an endpoint of some edge of the list |
| EdgeStreams.ListEdgeIterator.constructor | fastls-api/src/main/java/com/github/rahulsmehta/fastls/api/EdgeStream.java:53-54 | a new iterator has the whole list still to return |
| EdgeStreams.ListEdgeIterator.HasNext | fastls-api/src/main/java/com/github/rahulsmehta/fastls/api/EdgeStream.java:57-59 | true exactly when an edge is left |
| EdgeStreams.ListEdgeIterator.Next | fastls-api/src/main/java/com/github/rahulsmehta/fastls/api/EdgeStream.java:62-69 | returns the edge at the current index and moves past it; at the end a NoSuchElementException with nothing changed |
| EdgeStreams.ReaderEdgeIterator.constructor | fastls-api/src/main/java/com/github/rahulsmehta/fastls/api/EdgeStream.java:77-79 | a new iterator holds no line and is not flushed |
| EdgeStreams.ReaderEdgeIterator.HasNext | fastls-api/src/main/java/com/github/rahulsmehta/fastls/api/EdgeStream.java:82-92 | reads one line into the held slot only when flushed, and answers whether a line is held. Without a flush it reads nothing, so a fresh iterator reports no edge and stays fresh. |
| EdgeStreams.ReaderEdgeIterator.Next | fastls-api/src/main/java/com/github/rahulsmehta/fastls/api/EdgeStream.java:95-102 | no held line is a NoSuchElementException. Otherwise the held line is parsed, and it is marked used exactly when it parses. A fresh iterator throws and stays fresh. |
| EdgeStreams.EdgeStream.FromList | fastls-api/src/main/java/com/github/rahulsmehta/fastls/api/EdgeStream.java:17-24 | a list stream whose node count is the number of distinct endpoints, narrowed to int |
| EdgeStreams.EdgeStream.OverReader | fastls-api/src/main/java/com/github/rahulsmehta/fastls/api/EdgeStream.java:34-35 | a reader stream with the given node count |
| EdgeStreams.EdgeStream.Open | fastls-api/src/main/java/com/github/rahulsmehta/fastls/api/EdgeStream.java:26-39 | consumes the first line. No line is the "malformed input graph" exception; a line that is not an int is a NumberFormatException. Otherwise the result is a new reader stream with that node count. |
| EdgeStreams.EdgeStream.Iterator | fastls-api/src/main/java/com/github/rahulsmehta/fastls/api/EdgeStream.java:41-47 | a list stream gives a new list iterator over the whole list; a reader stream gives a new, fresh reader iterator over its reader |
| LookSelect.Range | fastls-api/src/main/java/com/github/rahulsmehta/fastls/api/LookSelectImpl.java:28 | a graph's vertex ids are exactly 0..n-1 |
| LookSelect.RangeSize | fastls-api/src/main/java/com/github/rahulsmehta/fastls/api/LookSelectImpl.java:44 | a graph with ids 0..n-1 has n nodes |
| LookSelect.Records | fastls-api/src/main/java/com/github/rahulsmehta/fastls/api/LookSelectImpl.java:50-51 | one record line per edge, in order, each the edge's toString |
| LookSelect.HandedBack | fastls-api/src/main/java/com/github/rahulsmehta/fastls/api/LookSelectImpl.java:48-53 | the edges handed back are at most one per call of processEdge, in order: the present values of the normal results of the calls |
| LookSelect.ReportsStep | fastls-api/src/main/java/com/github/rahulsmehta/fastls/api/LookSelectImpl.java:47-54 | one more call of processEdge extends the report: its edge is the one more fed, a handed-back edge is appended and counted, an exception ends the report with that exception, and an edge with an endpoint outside the graph is an exception |
| LookSelect.ChainedSnoc | fastls-api/src/main/java/com/github/rahulsmehta/fastls/api/LSTree.java:219-240 | a call that found the flag the previous calls left, and left it set if it was set (processEdge only ever sets it), extends the chain of flags |
| LookSelect.ChainedFirst | fastls-api/src/main/java/com/github/rahulsmehta/fastls/api/LookSelectImpl.java:32 | the first of a chain of calls found the flag the chain starts from: in a phase, the flag startPhase cleared |
| LookSelect.RaisedBy | fastls-api/src/main/java/com/github/rahulsmehta/fastls/api/LSTree.java:65-71 | when the calls chain from the flag startPhase cleared, the flag after them is set exactly when one of them found it clear and set it, so isComplete speaks of this phase's calls only |
| LookSelect.Fed | fastls-api/src/main/java/com/github/rahulsmehta/fastls/api/LookSelectImpl.java:47-48 | the edges of the recorded calls: one per call, each the edge that call was given, in order |
| LookSelect.SpillReadsBack | fastls-api/src/main/java/com/github/rahulsmehta/fastls/api/LookSelectImpl.java:44-51 | a spill's header parses to the node count, and each record parses to the edge it was written from |
| LookSelect.OpenSpill | fastls-api/src/main/java/com/github/rahulsmehta/fastls/api/LookSelectImpl.java:58-63 | a spill whose header parses opens as a new reader stream over its lines, with that node count and the header consumed |
| LookSelect.RangeCovered | fastls-api/src/main/java/com/github/rahulsmehta/fastls/api/LSTree.java:50-59 | a union-find over exactly the ids 0..n-1 has n elements and holds every id below n, so its grouping cannot throw |
| LookSelect.LookSelectImpl.constructor | fastls-api/src/main/java/com/github/rahulsmehta/fastls/api/LookSelectImpl.java:23-29 | phase 0, the graph's stream, and a new tree over the ids 0..n-1, each alone in its class |
| LookSelect.LookSelectImpl.FeedOne | fastls-api/src/main/java/com/github/rahulsmehta/fastls/api/LookSelectImpl.java:48-53 | for the edge next() returned: the call Call(edge, result, flag before, flag after) is the one more call in the loop's calls and in the tree's log, and it extends the chain of flags; an endpoint outside the union-find throws; otherwise the result and the new tree state are as Dispatched states for the translated edge (for an init edge, the flag and the result but not the new shape). A normal result extends the loop state by this edge, with a handed-back edge appended as its record; an exception ends the report with it and writes nothing. Classes only merge and the invariant is kept. |
| LookSelect.LookSelectImpl.FeedNext | fastls-api/src/main/java/com/github/rahulsmehta/fastls/api/LookSelectImpl.java:47-53 | next() hands out the edge at the iterator's position and FeedOne feeds it: the calls grow by exactly Call(that edge, result, flag before, flag after), which is also the one more entry of the tree's log, and the chain of flags is extended; an endpoint outside the union-find throws; a normal result extends the loop state by one edge, and an exception ends the report with that exception and writes nothing more |
| LookSelect.LookSelectImpl.FeedList | fastls-api/src/main/java/com/github/rahulsmehta/fastls/api/LookSelectImpl.java:47-54 | the calls it made are exactly the entries it added to the tree's log. Their edges are a prefix of those left, all of them on success. Success exactly when every call returned normally, with the count the number handed back; on failure, normal up to the last call, whose exception is the result. An edge outside the graph is an exception. The lines written are one record per edge processEdge handed back, in order. The flag is the one the last call recorded; each call found the flag the previous one left (the first, the flag at entry), and none cleared it (Chained). Classes only merge. |
| LookSelect.LookSelectImpl.ForEachListEdge | fastls-api/src/main/java/com/github/rahulsmehta/fastls/api/LookSelectImpl.java:47-54 | over a list stream, FeedList on the whole list from a new iterator |
| LookSelect.LookSelectImpl.ForEachReadEdge | fastls-api/src/main/java/com/github/rahulsmehta/fastls/api/LookSelectImpl.java:47-54 | over a reader stream, the first hasNext answers false: processEdge is never called, nothing is written, the count is 0 and the union-find is unchanged |
| LookSelect.LookSelectImpl.ForEachEdge | fastls-api/src/main/java/com/github/rahulsmehta/fastls/api/LookSelectImpl.java:47-54 | the calls added to the tree's log, their report and the records of FeedList: one record per edge handed back, in order. Over a list stream every edge is fed on success. Over a reader stream no call is made, nothing is written and the union-find is unchanged. |
| LookSelect.LookSelectImpl.WritePhase | fastls-api/src/main/java/com/github/rahulsmehta/fastls/api/LookSelectImpl.java:32-54 | the spill is the node-count header followed by one record per edge the logged calls of processEdge handed back, in order; the report of those calls as in FeedList; startPhase clears the flag first, so the calls chain from a cleared flag: the first call found it clear, each later one found the flag its predecessor left; the tree's flag is clear when no call was made and otherwise the one the last call recorded |
| LookSelect.LookSelectImpl.Reopen | fastls-api/src/main/java/com/github/rahulsmehta/fastls/api/LookSelectImpl.java:55-64 | the next stream is a new reader over the spill, with its header read back; the phase number moves on; the tree is untouched |
| LookSelect.LookSelectImpl.StreamingPhase | fastls-api/src/main/java/com/github/rahulsmehta/fastls/api/LookSelectImpl.java:31-71 | its calls are exactly the entries it added to the tree's log. It succeeds exactly when every call returned normally, and otherwise fails with the exception of the last call, leaving stream and phase as they were. On success the stream becomes a new reader over the spill of the handed-back edges, the phase moves on, and the phase is the last exactly when nothing was handed back or the flag the last call recorded is clear; that flag is the tree's flag, and the calls chain from the flag startPhase cleared, so by RaisedBy it is set exactly when one of this phase's calls set it. Every edge of a list stream is fed; a reader stream makes no call and is always the last. Classes only merge. |
| LookSelect.LookSelectImpl.RunPhases | fastls-api/src/main/java/com/github/rahulsmehta/fastls/api/LookSelectImpl.java:75-78 | its calls are exactly the entries it added to the tree's log, all made by the first phase. It succeeds exactly when every call returned normally, and otherwise fails with the exception of the last call. The number of phases is 1 when the calls handed back nothing or the last recorded flag is clear, and 2 otherwise; the calls chain from the cleared flag of the first phase's start, so the flag counts only that phase's calls (RaisedBy); the phase number moves on by it. From a reader stream exactly one phase runs, no call is made and the union-find is unchanged. Classes only merge. |
| LookSelect.LookSelectImpl.StronglyConnectedComponentsKeyed | fastls-api/src/main/java/com/github/rahulsmehta/fastls/api/LookSelectImpl.java:74-80 | its calls are exactly the entries it added to the tree's log. It succeeds exactly when every call returned normally, and otherwise fails with the exception of the last call; the grouping itself cannot throw. The result is the ids 0..n-1 grouped by their final representative, a partition by KeyedIsPartition. One phase ran when the calls handed back nothing or the last recorded flag is clear, and two otherwise; the calls chain from the flag the first phase's startPhase cleared. Classes only merged from the start. |
| LookSelect.LookSelectImpl.Grouped | fastls-api/src/main/java/com/github/rahulsmehta/fastls/api/LookSelectImpl.java:79 | after the phases, getKeyedComponents cannot throw: the union-find covers the ids 0..n-1 and the result is their grouping by representative |

## Left out

- File I/O is modelled as in-memory lines: the spill file, its name pattern, `BufferedWriter`, `FileReader` and the buffer size. An `IOException` and the `RuntimeException` that wraps it cannot occur in the model. The reader iterator's `IllegalArgumentException` for a failed read is left out for the same reason.
- The union-find is modelled by its contract (a representative map). How jgrapht picks the kept root (by rank) and compresses paths is not modelled. Union may keep either representative.
- `HashSet` and `HashMap` are sets and maps. Hashing and iteration order are not modelled. `TreeNode.equals` is by value, and `hashCode` is not overridden. The model's child sets are sets of references. A `HashSet` with the default `hashCode` also finds nodes by reference, except when two nodes of equal value collide in identity hash.
- StreamingGraph.java is not part of this model. Its node set is taken to be the ids 0..n-1, which its constructor builds.
- `stronglyConnectedComponents()` (the list of the keyed map's values, in both LSTree.java and LookSelectImpl.java) and `getNumNodes()` are not modelled: they only copy out results the model already states.
- The test oracle and logging are not part of this model.
- The stack depth at which the JVM throws `StackOverflowError` is not modelled. The recursions overflow in the model only when they would never end. A real JVM also overflows on a finite walk that is deep enough.
- LSTrees.LSTree.IsSelfLoop: the body takes the default Integer cache, -128..127. The contract states only what holds for any cache size: true only for equal endpoints, and always for equal endpoints inside the default range. A JVM started with a larger cache shares more boxes.
- JavaLang.ParseInt: accepts ASCII digits only. Java's `Integer.parseInt` also accepts the other Unicode decimal digits, and `String.format("%d")` writes the digits of the default locale. Both are taken to be ASCII, as the spill is written and read by the same program.
- LookSelect.LookSelectImpl.FeedNext: states the call it adds to the calls and to the log, but not Dispatched for it. FeedOne states Dispatched for that same call. Dispatched relates the tree to the heap processEdge starts from. FeedOne is handed the edge and starts from that heap; FeedNext starts before `next()`, whose heap differs in the iterator's position, so the clause is stated once, by FeedOne.
- LookSelect.LookSelectImpl.FeedList: what processEdge did to the tree (Dispatched) is stated one call at a time, by LSTree.ProcessEdge and FeedOne. FeedList and the methods above it state the calls they added to the tree's log (edge, result, and the flag before and after each) but not the tree state after each call, because the tree is an object graph with no value that could be stored per step. The log is ghost state that only LSTree.ProcessEdge writes; Dafny does not forbid another method from writing it, so that the logged calls are calls of processEdge rests on this shape of the code.
- LSTrees.LSTree.Handle: for an init edge the contract (Dispatched) states the flag, the result and the error cases, but not the new shape of the tree. That shape is the re-parenting of ProcessInit followed, when the edge then closes a cycle, by the contraction of ProcessBackward in the intermediate state; Dispatched relates only the states before and after the call, and which of the two happened depends on the intermediate tree.
- LookSelect.LookSelectImpl.FeedOne: inherits Handle's gap; for an init edge the new shape of the tree is not stated.
- LSTrees.LSTree.ProcessEdge: for an init edge the contract states the flag, the result and the error cases, but not the new shape of the tree. ProcessInit states the re-parenting and ProcessBackward the contraction that follows; the invariant is kept either way.
