/**
 * The navigation tree (src/tree.ts). Nodes live in an arena: a sequence of
 * nodes addressed by index, where `parent` and `children` hold indices. The
 * root is always slot 0 and every parent sits in an earlier slot than its
 * children, so walking parent links always ends at the root.
 */
module Tree {
  import opened Wrappers
  import opened Editor
  import opened Helpers

  /** A visited code location: the symbol, the word last seen in it, and tree links. */
  datatype TreeNode = TreeNode(
    symbol: DocumentSymbol,
    word: string,
    wordRange: Range,
    location: Location,
    color: string,
    current: bool,
    children: seq<nat>,
    parent: Option<nat>)

  /** The tree's root and the node the user is currently at (both absent when empty). */
  datatype TreeRoot = TreeRoot(node: Option<nat>, currentNode: Option<nat>)

  const EmptyRoot := TreeRoot(None, None)

  /*
   * Arena shape
   */

  ghost predicate ParentsBelow(nodes: seq<TreeNode>) {
    forall i :: 0 <= i < |nodes| && nodes[i].parent.Some? ==> nodes[i].parent.value < i
  }

  ghost predicate ChildrenAbove(nodes: seq<TreeNode>) {
    forall i, k :: 0 <= i < |nodes| && 0 <= k < |nodes[i].children| ==> i < nodes[i].children[k] < |nodes|
  }

  /**
   * The arena is one tree rooted at slot 0: only the root lacks a parent,
   * `children` lists are in creation order, and the parent and children
   * links describe the same edges.
   */
  ghost predicate WellFormed(nodes: seq<TreeNode>) {
    && ParentsBelow(nodes)
    && ChildrenAbove(nodes)
    && (forall i :: 0 <= i < |nodes| ==> (nodes[i].parent.None? <==> i == 0))
    && (forall i :: 0 <= i < |nodes| ==> ChildrenPointBack(nodes, i))
    && (forall i, k, l :: 0 <= i < |nodes| && 0 <= k < l < |nodes[i].children| ==>
          nodes[i].children[k] < nodes[i].children[l])
    && (forall j :: 0 < j < |nodes| ==> ListedByParent(nodes, j))
  }

  /** Every child of node `i` names `i` as its parent. */
  ghost predicate ChildrenPointBack(nodes: seq<TreeNode>, i: nat)
    requires ChildrenAbove(nodes) && i < |nodes|
  {
    forall k :: 0 <= k < |nodes[i].children| ==> nodes[nodes[i].children[k]].parent == Some(i)
  }

  /** Node `j` has a parent, and the parent lists `j` among its children. */
  ghost predicate ListedByParent(nodes: seq<TreeNode>, j: nat)
    requires ParentsBelow(nodes) && j < |nodes|
  {
    nodes[j].parent.Some? && j in nodes[nodes[j].parent.value].children
  }

  /** The node references of a tree root point into the arena. */
  ghost predicate RootInArena(nodes: seq<TreeNode>, root: TreeRoot) {
    && ParentsBelow(nodes)
    && ChildrenAbove(nodes)
    && (root.currentNode.Some? ==> root.currentNode.value < |nodes|)
  }

  /*
   * Reference orders and the first identical node in an order
   */

  /** The walk from `n` up through parent links: `n` first, the root last. */
  function PathToRoot(nodes: seq<TreeNode>, n: nat): (p: seq<nat>)
    requires ParentsBelow(nodes) && n < |nodes|
    decreases n
    ensures |p| > 0 && p[0] == n
    ensures forall k :: 0 <= k < |p| ==> p[k] <= n
    ensures forall k :: 0 <= k < |p| - 1 ==> LinkedAt(nodes, p, k)
    ensures nodes[p[|p| - 1]].parent.None?
  {
    match nodes[n].parent
    case None => [n]
    case Some(q) =>
      var rest := PathToRoot(nodes, q);
      LinkedAfterStep(nodes, n, rest);
      [n] + rest
  }

  /** Putting a node in front of the walk from its parent keeps every step a parent link. */
  lemma LinkedAfterStep(nodes: seq<TreeNode>, n: nat, rest: seq<nat>)
    requires n < |nodes| && |rest| > 0 && nodes[n].parent == Some(rest[0])
    requires forall k :: 0 <= k < |rest| ==> rest[k] < |nodes|
    requires forall k :: 0 <= k < |rest| - 1 ==> LinkedAt(nodes, rest, k)
    ensures forall k :: 0 <= k < |rest| ==> LinkedAt(nodes, [n] + rest, k)
  {
    forall k | 0 <= k < |rest|
      ensures LinkedAt(nodes, [n] + rest, k)
    {
      if k > 0 {
        assert LinkedAt(nodes, rest, k - 1);
      }
    }
  }

  /** In walk `p`, the node after position `k` is the parent of the node at `k`. */
  ghost predicate LinkedAt(nodes: seq<TreeNode>, p: seq<nat>, k: nat)
    requires k + 1 < |p| && p[k] < |nodes|
  {
    nodes[p[k]].parent == Some(p[k + 1])
  }

  /** The nodes of the subtree at `n` in pre-order, children in list order. */
  function PreOrder(nodes: seq<TreeNode>, n: nat): (p: seq<nat>)
    requires ChildrenAbove(nodes) && n < |nodes|
    decreases |nodes| - n, 1
    ensures |p| > 0 && p[0] == n
    ensures forall k :: 0 <= k < |p| ==> n <= p[k] < |nodes|
  {
    [n] + PreOrderAll(nodes, nodes[n].children, n)
  }

  function PreOrderAll(nodes: seq<TreeNode>, cs: seq<nat>, p: nat): (r: seq<nat>)
    requires ChildrenAbove(nodes) && p < |nodes|
    requires forall k :: 0 <= k < |cs| ==> p < cs[k] < |nodes|
    decreases |nodes| - p, 0, |cs|
    ensures forall k :: 0 <= k < |r| ==> p < r[k] < |nodes|
  {
    if cs == [] then [] else PreOrder(nodes, cs[0]) + PreOrderAll(nodes, cs[1..], p)
  }

  /**
   * The position in `order` of the first node whose symbol is identical to
   * `symbol`, if any.
   */
  function FirstIdenticalAt(nodes: seq<TreeNode>, order: seq<nat>, symbol: DocumentSymbol): (r: Option<nat>)
    requires forall k :: 0 <= k < |order| ==> order[k] < |nodes|
    ensures r.None? <==> forall k :: 0 <= k < |order| ==> !AreSymbolsIdentical(nodes[order[k]].symbol, symbol)
    ensures r.Some? ==> r.value < |order| && AreSymbolsIdentical(nodes[order[r.value]].symbol, symbol)
    ensures r.Some? ==> forall j :: 0 <= j < r.value ==> !AreSymbolsIdentical(nodes[order[j]].symbol, symbol)
  {
    if order == [] then None
    else if AreSymbolsIdentical(nodes[order[0]].symbol, symbol) then Some(0)
    else
      match FirstIdenticalAt(nodes, order[1..], symbol)
      case None => None
      case Some(k) => Some(k + 1)
  }

  /** `x` is the first node of `order` whose symbol is identical to `symbol`. */
  ghost predicate IsFirstIdentical(nodes: seq<TreeNode>, order: seq<nat>, x: nat, symbol: DocumentSymbol)
    requires forall k :: 0 <= k < |order| ==> order[k] < |nodes|
  {
    exists k :: 0 <= k < |order| && order[k] == x
      && AreSymbolsIdentical(nodes[order[k]].symbol, symbol)
      && forall j :: 0 <= j < k ==> !AreSymbolsIdentical(nodes[order[j]].symbol, symbol)
  }

  /** No node of `order` has a symbol identical to `symbol`. */
  ghost predicate NoneIdentical(nodes: seq<TreeNode>, order: seq<nat>, symbol: DocumentSymbol)
    requires forall k :: 0 <= k < |order| ==> order[k] < |nodes|
  {
    forall k :: 0 <= k < |order| ==> !AreSymbolsIdentical(nodes[order[k]].symbol, symbol)
  }

  /** The first node of `order` whose symbol is identical to `symbol`, if any. */
  function FirstIdentical(nodes: seq<TreeNode>, order: seq<nat>, symbol: DocumentSymbol): (r: Option<nat>)
    requires forall k :: 0 <= k < |order| ==> order[k] < |nodes|
    ensures r.Some? ==> r.value < |nodes|
  {
    match FirstIdenticalAt(nodes, order, symbol)
    case None => None
    case Some(k) => Some(order[k])
  }

  /** The first identical node of `order` is that, and there is none exactly when no node of `order` is identical. */
  lemma FirstIdenticalFacts(nodes: seq<TreeNode>, order: seq<nat>, symbol: DocumentSymbol)
    requires forall k :: 0 <= k < |order| ==> order[k] < |nodes|
    ensures FirstIdentical(nodes, order, symbol).Some? ==>
      IsFirstIdentical(nodes, order, FirstIdentical(nodes, order, symbol).value, symbol)
    ensures FirstIdentical(nodes, order, symbol).None? <==> NoneIdentical(nodes, order, symbol)
  {
    var at := FirstIdenticalAt(nodes, order, symbol);
    if at.Some? {
      assert order[at.value] == FirstIdentical(nodes, order, symbol).value;
    }
  }

  /** Searching a concatenation searches the first part, then the second. */
  lemma {:induction false} FirstIdenticalAppend(nodes: seq<TreeNode>, a: seq<nat>, b: seq<nat>, symbol: DocumentSymbol)
    requires forall k :: 0 <= k < |a| ==> a[k] < |nodes|
    requires forall k :: 0 <= k < |b| ==> b[k] < |nodes|
    ensures FirstIdentical(nodes, a + b, symbol) ==
      if FirstIdentical(nodes, a, symbol).Some? then FirstIdentical(nodes, a, symbol)
      else FirstIdentical(nodes, b, symbol)
  {
    if a != [] {
      assert (a + b)[0] == a[0];
      if !AreSymbolsIdentical(nodes[a[0]].symbol, symbol) {
        assert (a + b)[1..] == a[1..] + b;
        FirstIdenticalAppend(nodes, a[1..], b, symbol);
      }
    } else {
      assert a + b == b;
    }
  }

  /*
   * The searches of src/tree.ts
   */

  /**
   * `findNodeBySymbol`: the start node when its symbol is identical,
   * otherwise the first match found by searching the children in order,
   * depth first. This is the first identical node of the subtree in pre-order.
   */
  function FindNodeBySymbol(nodes: seq<TreeNode>, n: nat, symbol: DocumentSymbol): (r: Option<nat>)
    requires ChildrenAbove(nodes) && n < |nodes|
    decreases |nodes| - n, 1
    ensures r == FirstIdentical(nodes, PreOrder(nodes, n), symbol)
  {
    if AreSymbolsIdentical(nodes[n].symbol, symbol) then Some(n)
    else
      var r := FindInChildren(nodes, nodes[n].children, n, symbol);
      FirstIdenticalAppend(nodes, [n], PreOrderAll(nodes, nodes[n].children, n), symbol);
      r
  }

  /** The `for ... of node.children` loop of `findNodeBySymbol`. */
  function FindInChildren(nodes: seq<TreeNode>, cs: seq<nat>, p: nat, symbol: DocumentSymbol): (r: Option<nat>)
    requires ChildrenAbove(nodes) && p < |nodes|
    requires forall k :: 0 <= k < |cs| ==> p < cs[k] < |nodes|
    decreases |nodes| - p, 0, |cs|
    ensures r == FirstIdentical(nodes, PreOrderAll(nodes, cs, p), symbol)
  {
    if cs == [] then None
    else
      var found := FindNodeBySymbol(nodes, cs[0], symbol);
      FirstIdenticalAppend(nodes, PreOrder(nodes, cs[0]), PreOrderAll(nodes, cs[1..], p), symbol);
      if found.Some? then found else FindInChildren(nodes, cs[1..], p, symbol)
  }

  /**
   * `findIfSymbolIsChildOfCurrentNode`: nothing for an empty tree or an
   * absent current node; otherwise the first direct child of the current
   * node whose symbol is identical.
   */
  function FindIfSymbolIsChildOfCurrentNode(nodes: seq<TreeNode>, root: TreeRoot, symbol: DocumentSymbol): (r: Option<nat>)
    requires RootInArena(nodes, root)
    ensures r.Some? ==> root.node.Some? && root.currentNode.Some? && r.value < |nodes|
  {
    if root.node.None? then None
    else if root.currentNode.None? then None
    else FirstIdentical(nodes, nodes[root.currentNode.value].children, symbol)
  }

  /** The do-while loop of `findIfSymbolIsAncestorOfCurrentNode`, from node `n` upwards. */
  function FindOnPathUp(nodes: seq<TreeNode>, n: nat, symbol: DocumentSymbol): (r: Option<nat>)
    requires ParentsBelow(nodes) && n < |nodes|
    decreases n
    ensures r == FirstIdentical(nodes, PathToRoot(nodes, n), symbol)
  {
    if AreSymbolsIdentical(nodes[n].symbol, symbol) then Some(n)
    else
      match nodes[n].parent
      case None => None
      case Some(q) =>
        var r := FindOnPathUp(nodes, q, symbol);
        assert PathToRoot(nodes, n)[1..] == PathToRoot(nodes, q);
        r
  }

  /**
   * `findIfSymbolIsAncestorOfCurrentNode`: nothing for an empty tree or an
   * absent current node; otherwise the nearest node with an identical symbol
   * on the path from the current node (inclusive) up to the root.
   */
  function FindIfSymbolIsAncestorOfCurrentNode(nodes: seq<TreeNode>, root: TreeRoot, symbol: DocumentSymbol): (r: Option<nat>)
    requires RootInArena(nodes, root)
    ensures r.Some? ==> root.node.Some? && root.currentNode.Some? && r.value < |nodes|
  {
    if root.node.None? then None
    else if root.currentNode.None? then None
    else FindOnPathUp(nodes, root.currentNode.value, symbol)
  }

  /**
   * The child search finds the first direct child of the current node with
   * an identical symbol, and finds nothing exactly when there is no tree, no
   * current node or no such child.
   */
  lemma ChildSearchIsFirstIdentical(nodes: seq<TreeNode>, root: TreeRoot, symbol: DocumentSymbol)
    requires RootInArena(nodes, root)
    ensures var r := FindIfSymbolIsChildOfCurrentNode(nodes, root, symbol);
      && (r.Some? ==> IsFirstIdentical(nodes, nodes[root.currentNode.value].children, r.value, symbol))
      && (r.None? <==> root.node.None? || root.currentNode.None?
                       || NoneIdentical(nodes, nodes[root.currentNode.value].children, symbol))
  {
    if root.node.Some? && root.currentNode.Some? {
      FirstIdenticalFacts(nodes, nodes[root.currentNode.value].children, symbol);
    }
  }

  /**
   * The ancestor search finds the nearest node with an identical symbol on
   * the walk from the current node (inclusive) to the root, and finds
   * nothing exactly when there is no tree, no current node or no such node.
   */
  lemma AncestorSearchIsFirstIdentical(nodes: seq<TreeNode>, root: TreeRoot, symbol: DocumentSymbol)
    requires RootInArena(nodes, root)
    ensures var r := FindIfSymbolIsAncestorOfCurrentNode(nodes, root, symbol);
      && (r.Some? ==> IsFirstIdentical(nodes, PathToRoot(nodes, root.currentNode.value), r.value, symbol))
      && (r.None? <==> root.node.None? || root.currentNode.None?
                       || NoneIdentical(nodes, PathToRoot(nodes, root.currentNode.value), symbol))
  {
    if root.node.Some? && root.currentNode.Some? {
      FirstIdenticalFacts(nodes, PathToRoot(nodes, root.currentNode.value), symbol);
    }
  }

  /**
   * `getTreeItemIcon`, as the icon's id: an arrow for the current node,
   * otherwise a wrench for properties and a function glyph for every other kind.
   */
  function GetTreeItemIcon(node: TreeNode): (icon: string)
    ensures icon == "arrow-right" <==> node.current
    ensures icon == "wrench" <==> !node.current && node.symbol.kind == Property
    ensures icon == "symbol-function" <==> !node.current && node.symbol.kind != Property
  {
    if node.current then "arrow-right"
    else if node.symbol.kind == Property then "wrench"
    else "symbol-function"
  }

  /*
   * Invariants of a live navigation tree
   */

  /** No node's symbol is identical to the symbol of any of its proper ancestors. */
  ghost predicate PathsDistinct(nodes: seq<TreeNode>)
    requires ParentsBelow(nodes)
  {
    forall i, k :: 0 <= i < |nodes| && 0 < k < |PathToRoot(nodes, i)| ==>
      !AreSymbolsIdentical(nodes[PathToRoot(nodes, i)[k]].symbol, nodes[i].symbol)
  }

  /** No two children of the same node have identical symbols. */
  ghost predicate SiblingsDistinct(nodes: seq<TreeNode>) {
    forall i, j :: 0 <= i < j < |nodes| && nodes[i].parent == nodes[j].parent ==>
      !AreSymbolsIdentical(nodes[i].symbol, nodes[j].symbol)
  }

  /**
   * A live tree: empty, or rooted at slot 0 with a current node; the current
   * node is the only node flagged current; symbols are pairwise distinct
   * along every root-to-node path and among siblings.
   */
  ghost predicate ValidTree(nodes: seq<TreeNode>, root: TreeRoot) {
    && WellFormed(nodes)
    && (root.node.None? <==> nodes == [])
    && (root.node.Some? ==> root.node.value == 0)
    && (root.currentNode.None? <==> root.node.None?)
    && (root.currentNode.Some? ==> root.currentNode.value < |nodes|)
    && (forall i :: 0 <= i < |nodes| ==> (nodes[i].current <==> root.currentNode == Some(i)))
    && PathsDistinct(nodes)
    && SiblingsDistinct(nodes)
  }

  /** Every walk up from a node of a well-formed arena ends at the root, slot 0. */
  lemma PathEndsAtRoot(nodes: seq<TreeNode>, n: nat)
    requires WellFormed(nodes) && n < |nodes|
    ensures PathToRoot(nodes, n)[|PathToRoot(nodes, n)| - 1] == 0
  {
  }

  /** The walk up depends only on parent links, so it survives any change that keeps them. */
  lemma {:induction false} PathToRootFrame(nodes: seq<TreeNode>, nodes': seq<TreeNode>, n: nat)
    requires ParentsBelow(nodes) && ParentsBelow(nodes')
    requires n < |nodes| <= |nodes'|
    requires forall i :: 0 <= i < |nodes| ==> nodes'[i].parent == nodes[i].parent
    ensures PathToRoot(nodes', n) == PathToRoot(nodes, n)
    decreases n
  {
    if nodes[n].parent.Some? {
      PathToRootFrame(nodes, nodes', nodes[n].parent.value);
    }
  }
}
