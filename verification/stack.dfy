/**
 * The navigation stack exposed to the views (src/extension.ts): its
 * projection from the tree, the in-place reconciliation with the previous
 * stack, and the per-file colouring.
 */
module Stack {
  import opened Wrappers
  import opened Editor
  import opened Constants
  import opened Helpers
  import opened Tree
  import opened DataTypes

  /*
   * Projection of the tree onto a stack
   */

  /** The stack row copied from node `n`. */
  function ElementOf(nodes: seq<TreeNode>, n: nat): StackElement
    requires n < |nodes|
  {
    var node := nodes[n];
    StackElement(node.symbol, node.word, node.wordRange, node.location, node.current, node.color, n)
  }

  /** The rows copied from the nodes of `order`, in that order. */
  function Elements(nodes: seq<TreeNode>, order: seq<nat>): (r: seq<StackElement>)
    requires forall k :: 0 <= k < |order| ==> order[k] < |nodes|
  {
    seq(|order|, k requires 0 <= k < |order| => ElementOf(nodes, order[k]))
  }

  function Reverse<T>(s: seq<T>): (r: seq<T>) {
    seq(|s|, k requires 0 <= k < |s| => s[|s| - 1 - k])
  }

  /**
   * The stack of a tree: the nodes from the root down to the current node,
   * one row per node, or nothing when there is no current node.
   */
  function Projection(nodes: seq<TreeNode>, root: TreeRoot): seq<StackElement>
    requires ParentsBelow(nodes) && (root.currentNode.Some? ==> root.currentNode.value < |nodes|)
  {
    match root.currentNode
    case None => []
    case Some(cur) => Reverse(Elements(nodes, PathToRoot(nodes, cur)))
  }

  /**
   * `getPartialStackFromTree`: walk the parent links from the current node,
   * pushing one row per node, then reverse the rows.
   */
  method GetPartialStackFromTree(nodes: seq<TreeNode>, root: TreeRoot) returns (stack: seq<StackElement>)
    requires ParentsBelow(nodes) && (root.currentNode.Some? ==> root.currentNode.value < |nodes|)
    ensures stack == Projection(nodes, root)
  {
    if root.currentNode.None? {
      return [];
    }
    var n: nat := root.currentNode.value;
    ghost var path := PathToRoot(nodes, n);
    var walked: seq<StackElement> := [];
    while true
      invariant n < |nodes|
      invariant walked + Elements(nodes, PathToRoot(nodes, n)) == Elements(nodes, path)
      decreases n
    {
      WalkStep(nodes, n);
      walked := walked + [ElementOf(nodes, n)];
      if nodes[n].parent.None? {
        break;
      }
      n := nodes[n].parent.value;
    }
    stack := Reverse(walked);
  }

  /** One step of the walk: the row of `n`, then the rows of the walk from its parent. */
  lemma WalkStep(nodes: seq<TreeNode>, n: nat)
    requires ParentsBelow(nodes) && n < |nodes|
    ensures nodes[n].parent.None? ==> Elements(nodes, PathToRoot(nodes, n)) == [ElementOf(nodes, n)]
    ensures nodes[n].parent.Some? ==>
      Elements(nodes, PathToRoot(nodes, n)) == [ElementOf(nodes, n)] + Elements(nodes, PathToRoot(nodes, nodes[n].parent.value))
  {
    if nodes[n].parent.Some? {
      var q := nodes[n].parent.value;
      assert PathToRoot(nodes, n) == [n] + PathToRoot(nodes, q);
      ElementsCons(nodes, n, PathToRoot(nodes, q));
    }
  }

  lemma ElementsCons(nodes: seq<TreeNode>, n: nat, rest: seq<nat>)
    requires n < |nodes| && forall k :: 0 <= k < |rest| ==> rest[k] < |nodes|
    ensures Elements(nodes, [n] + rest) == [ElementOf(nodes, n)] + Elements(nodes, rest)
  {
    var e := Elements(nodes, [n] + rest);
    var e' := [ElementOf(nodes, n)] + Elements(nodes, rest);
    forall k | 0 <= k < |e|
      ensures e[k] == e'[k]
    {
      if k > 0 {
        assert ([n] + rest)[k] == rest[k - 1];
      }
    }
  }

  /** Reversing the rows of a walk puts the row of its last node first. */
  lemma ReversedRows(nodes: seq<TreeNode>, p: seq<nat>)
    requires forall k :: 0 <= k < |p| ==> p[k] < |nodes|
    ensures var st := Reverse(Elements(nodes, p));
      |st| == |p| && forall k :: 0 <= k < |st| ==> st[k] == ElementOf(nodes, p[|p| - 1 - k])
  {
  }

  /** Row `k` of the stack copies the node `k` steps below the root on the walk from the current node. */
  lemma ProjectionRows(nodes: seq<TreeNode>, cur: nat)
    requires ParentsBelow(nodes) && cur < |nodes|
    ensures var p := PathToRoot(nodes, cur);
      var st := Projection(nodes, TreeRoot(Some(0), Some(cur)));
      && |st| == |p|
      && forall k :: 0 <= k < |st| ==> st[k] == ElementOf(nodes, p[|p| - 1 - k])
  {
    var p := PathToRoot(nodes, cur);
    ReversedRows(nodes, p);
    assert Projection(nodes, TreeRoot(Some(0), Some(cur))) == Reverse(Elements(nodes, p));
  }

  /** The stack starts at the root and ends at the current node. */
  lemma ProjectionEnds(nodes: seq<TreeNode>, cur: nat)
    requires WellFormed(nodes) && cur < |nodes|
    ensures var st := Projection(nodes, TreeRoot(Some(0), Some(cur)));
      |st| > 0 && st[0].node == 0 && st[|st| - 1].node == cur
  {
    ProjectionRows(nodes, cur);
    PathEndsAtRoot(nodes, cur);
  }

  /** Each row's node is the parent of the next row's node. */
  lemma ProjectionLinks(nodes: seq<TreeNode>, cur: nat)
    requires ParentsBelow(nodes) && cur < |nodes|
    ensures var st := Projection(nodes, TreeRoot(Some(0), Some(cur)));
      forall k :: 0 <= k < |st| - 1 ==> nodes[st[k + 1].node].parent == Some(st[k].node)
  {
    var p := PathToRoot(nodes, cur);
    var st := Projection(nodes, TreeRoot(Some(0), Some(cur)));
    ProjectionRows(nodes, cur);
    forall k | 0 <= k < |st| - 1
      ensures nodes[st[k + 1].node].parent == Some(st[k].node)
    {
      var j := |p| - 2 - k;
      assert st[k + 1].node == p[j] && st[k].node == p[j + 1];
      assert LinkedAt(nodes, p, j);
    }
  }

  /** When only the current node is flagged, only the last row is marked current. */
  lemma ProjectionCurrentLast(nodes: seq<TreeNode>, cur: nat)
    requires ParentsBelow(nodes) && cur < |nodes|
    requires forall i :: 0 <= i < |nodes| ==> (nodes[i].current <==> i == cur)
    ensures var st := Projection(nodes, TreeRoot(Some(0), Some(cur)));
      forall k :: 0 <= k < |st| ==> (st[k].isCurrent <==> k == |st| - 1)
  {
    var p := PathToRoot(nodes, cur);
    ProjectionRows(nodes, cur);
    PathStrictlyDecreasing(nodes, cur);
  }

  /**
   * The stack of a valid tree with a current node runs from the root to the
   * current node: one row per node of that walk, each copied from its node,
   * each row's node the parent of the next row's, and only the last row
   * marked current.
   */
  lemma ProjectionShape(nodes: seq<TreeNode>, root: TreeRoot)
    requires ValidTree(nodes, root) && root.currentNode.Some?
    ensures var st := Projection(nodes, root);
      var cur := root.currentNode.value;
      && |st| == |PathToRoot(nodes, cur)|
      && st[0].node == 0 && st[|st| - 1].node == cur
      && (forall k :: 0 <= k < |st| ==> st[k].node < |nodes| && st[k] == ElementOf(nodes, st[k].node))
      && (forall k :: 0 <= k < |st| - 1 ==> nodes[st[k + 1].node].parent == Some(st[k].node))
      && (forall k :: 0 <= k < |st| ==> (st[k].isCurrent <==> k == |st| - 1))
  {
    var cur := root.currentNode.value;
    assert root == TreeRoot(Some(0), Some(cur));
    ProjectionRows(nodes, cur);
    ProjectionEnds(nodes, cur);
    ProjectionLinks(nodes, cur);
    ProjectionCurrentLast(nodes, cur);
  }

  /** The walk up visits strictly smaller slots, so only its first node is the start node. */
  lemma PathStrictlyDecreasing(nodes: seq<TreeNode>, n: nat)
    requires ParentsBelow(nodes) && n < |nodes|
    ensures forall k :: 0 < k < |PathToRoot(nodes, n)| ==> PathToRoot(nodes, n)[k] < n
  {
    var p := PathToRoot(nodes, n);
    forall k | 0 < k < |p|
      ensures p[k] < n
    {
      assert LinkedAt(nodes, p, k - 1);
    }
  }

  /*
   * Colouring
   */

  /** The file path of each row. */
  function Paths(stack: seq<StackElement>): (r: seq<string>)
    ensures |r| == |stack|
    ensures forall k :: 0 <= k < |stack| ==> r[k] == stack[k].location.uri.fsPath
  {
    seq(|stack|, k requires 0 <= k < |stack| => stack[k].location.uri.fsPath)
  }

  /** The distinct paths of `paths`, each at the place it first appears. */
  function Distinct(paths: seq<string>): (d: seq<string>)
    ensures forall x :: x in d <==> x in paths
    ensures forall a, b :: 0 <= a < b < |d| ==> d[a] != d[b]
    ensures |d| <= |paths|
  {
    if paths == [] then []
    else
      var d := Distinct(paths[..|paths| - 1]);
      assert paths == paths[..|paths| - 1] + [paths[|paths| - 1]];
      if paths[|paths| - 1] in d then d else d + [paths[|paths| - 1]]
  }

  /** The first position of `x` in `d`; in a list without duplicates, its only one. */
  function IndexOf(d: seq<string>, x: string): (i: nat)
    requires x in d
    ensures i < |d| && d[i] == x
    ensures forall j :: 0 <= j < i ==> d[j] != x
  {
    if d[0] == x then 0 else 1 + IndexOf(d[1..], x)
  }

  /** The colour `colorNewStack` gives to path `x`: the palette entry of its rank among the distinct paths, cycling. */
  function ColorOf(paths: seq<string>, x: string): (c: string)
    requires x in paths
    ensures c in ALLOWED_COLORS
  {
    ALLOWED_COLORS[IndexOf(Distinct(paths), x) % |ALLOWED_COLORS|]
  }

  /** The stack with every row coloured by its file; nothing else changes. */
  function Colored(stack: seq<StackElement>): (r: seq<StackElement>)
    ensures |r| == |stack|
    ensures forall k :: 0 <= k < |stack| ==>
      r[k] == stack[k].(color := ColorOf(Paths(stack), stack[k].location.uri.fsPath))
  {
    var paths := Paths(stack);
    seq(|stack|, k requires 0 <= k < |stack| => stack[k].(color := ColorOf(paths, stack[k].location.uri.fsPath)))
  }

  /** The distinct paths of a prefix are a prefix of the distinct paths. */
  lemma {:induction false} DistinctPrefix(paths: seq<string>, i: nat)
    requires i <= |paths|
    ensures Distinct(paths[..i]) <= Distinct(paths)
    decreases |paths| - i
  {
    if i < |paths| {
      DistinctPrefix(paths, i + 1);
      assert paths[..i + 1][..i] == paths[..i];
    } else {
      assert paths[..i] == paths;
    }
  }

  /** One more path extends the distinct paths by that path exactly when it is new. */
  lemma DistinctStep(paths: seq<string>, i: nat)
    requires i < |paths|
    ensures Distinct(paths[..i + 1]) ==
      if paths[i] in paths[..i] then Distinct(paths[..i]) else Distinct(paths[..i]) + [paths[i]]
  {
    assert paths[..i + 1][..i] == paths[..i];
  }

  /** A value keeps its position when a list without duplicates is extended. */
  lemma IndexOfPrefix(d1: seq<string>, d2: seq<string>, x: string)
    requires d1 <= d2 && x in d1
    ensures x in d2 && IndexOf(d1, x) == IndexOf(d2, x)
  {
    var i := IndexOf(d1, x);
    assert d2[i] == x;
  }

  /** Every value of `d` occurs in `paths`, and earlier in `d` means earlier first occurrence in `paths`. */
  predicate InFirstAppearanceOrder(paths: seq<string>, d: seq<string>) {
    && (forall x :: x in d ==> x in paths)
    && forall a, b :: 0 <= a < b < |d| ==> IndexOf(paths, d[a]) < IndexOf(paths, d[b])
  }

  /** The distinct paths are listed in the order of their first appearance. */
  lemma {:induction false} DistinctFirstAppearanceOrder(paths: seq<string>)
    ensures InFirstAppearanceOrder(paths, Distinct(paths))
  {
    if paths != [] {
      var init := paths[..|paths| - 1];
      var last := paths[|paths| - 1];
      assert init <= paths;
      DistinctFirstAppearanceOrder(init);
      var d := Distinct(paths);
      var d0 := Distinct(init);
      forall a, b | 0 <= a < b < |d|
        ensures IndexOf(paths, d[a]) < IndexOf(paths, d[b])
      {
        assert d[a] == d0[a] && d[a] in init;
        IndexOfPrefix(init, paths, d[a]);
        if b < |d0| {
          assert d[b] == d0[b] && d[b] in init;
          IndexOfPrefix(init, paths, d[b]);
          assert IndexOf(init, d0[a]) < IndexOf(init, d0[b]);
        } else {
          assert d == d0 + [last] && last !in init;
          assert IndexOf(paths, last) == |paths| - 1;
        }
      }
    }
  }

  /** In a list without duplicates, the element at `k` is found at `k`. */
  lemma IndexOfDistinct(d: seq<string>, k: nat)
    requires k < |d| && forall a, b :: 0 <= a < b < |d| ==> d[a] != d[b]
    ensures IndexOf(d, d[k]) == k
  {
  }

  /** `colorNewStack` gives rows of one file one colour. */
  lemma SameFileSameColor(stack: seq<StackElement>, i: nat, j: nat)
    requires i < |stack| && j < |stack|
    requires stack[i].location.uri.fsPath == stack[j].location.uri.fsPath
    ensures Colored(stack)[i].color == Colored(stack)[j].color
  {
  }

  /**
   * The k-th distinct file, in order of first appearance, gets palette
   * entry k modulo 7.
   */
  lemma ColorByRank(stack: seq<StackElement>, k: nat, i: nat)
    requires k < |Distinct(Paths(stack))| && i < |stack|
    requires stack[i].location.uri.fsPath == Distinct(Paths(stack))[k]
    ensures Colored(stack)[i].color == ALLOWED_COLORS[k % 7]
  {
    IndexOfDistinct(Distinct(Paths(stack)), k);
  }

  /** The first row is always purple: its file is the first distinct file. */
  lemma FirstRowPurple(stack: seq<StackElement>)
    requires |stack| > 0
    ensures Colored(stack)[0].color == "#c586c0"
  {
    var paths := Paths(stack);
    DistinctPrefix(paths, 1);
    assert paths[..1] == [paths[0]];
    assert Distinct(paths[..1]) == [paths[0]];
    IndexOfPrefix([paths[0]], Distinct(paths), paths[0]);
  }

  /** The eighth distinct file wraps round to the first file's colour. */
  lemma EighthFileWraps(stack: seq<StackElement>)
    requires |Distinct(Paths(stack))| >= 8
    ensures var d := Distinct(Paths(stack));
      ColorOf(Paths(stack), d[7]) == ColorOf(Paths(stack), d[0])
  {
    var d := Distinct(Paths(stack));
    IndexOfDistinct(d, 7);
    IndexOfDistinct(d, 0);
  }


  /*
   * Reconciling the exposed stack with the projection
   */

  /**
   * The condition under which `checkAndUpdateNewStackContainsPartialStack`
   * keeps the old stack: it is not empty, not shorter than the candidate,
   * and identical symbol by symbol on the candidate's length.
   */
  predicate ContainsPrefix(stack: seq<StackElement>, candidate: seq<StackElement>) {
    && |stack| > 0
    && |candidate| <= |stack|
    && forall i :: 0 <= i < |candidate| ==> AreSymbolsIdentical(stack[i].symbol, candidate[i].symbol)
  }

  /**
   * The old stack updated in place: the row at the candidate's last index
   * becomes current and takes the candidate's word, range and location;
   * every other row is marked not current.
   */
  function Refreshed(stack: seq<StackElement>, candidate: seq<StackElement>): (r: seq<StackElement>)
    requires 0 < |candidate| <= |stack|
    ensures |r| == |stack|
    ensures forall i :: 0 <= i < |stack| ==>
      && r[i].symbol == stack[i].symbol && r[i].color == stack[i].color && r[i].node == stack[i].node
      && (r[i].isCurrent <==> i == |candidate| - 1)
    ensures forall i :: 0 <= i < |stack| && i != |candidate| - 1 ==>
      r[i].word == stack[i].word && r[i].wordRange == stack[i].wordRange && r[i].location == stack[i].location
    ensures var last := |candidate| - 1;
      r[last].word == candidate[last].word && r[last].wordRange == candidate[last].wordRange
      && r[last].location == candidate[last].location
  {
    var last := |candidate| - 1;
    seq(|stack|, i requires 0 <= i < |stack| =>
      if i == last then
        stack[i].(isCurrent := true, wordRange := candidate[i].wordRange, word := candidate[i].word,
                  location := candidate[i].location)
      else stack[i].(isCurrent := false))
  }

  /**
   * `updateNewStack`: empty for an empty tree; otherwise the old stack
   * refreshed in place when it contains the projection, else the projection
   * recoloured per file.
   */
  function NewStackAfter(stack: seq<StackElement>, nodes: seq<TreeNode>, root: TreeRoot): (r: seq<StackElement>)
    requires RootInArena(nodes, root)
    ensures r == [] <==> root.node.None? || root.currentNode.None?
  {
    if root.node.None? || root.currentNode.None? then []
    else
      var candidate := Projection(nodes, root);
      if ContainsPrefix(stack, candidate) then Refreshed(stack, candidate) else Colored(candidate)
  }

  /**
   * After `updateNewStack` on a valid non-empty tree, exactly one row is
   * current, at the depth of the current node; its symbol is identical to
   * the current node's, and it carries the current node's word, range and
   * location.
   */
  lemma NewStackTracksCurrent(stack: seq<StackElement>, nodes: seq<TreeNode>, root: TreeRoot)
    requires ValidTree(nodes, root) && root.currentNode.Some?
    ensures var r := NewStackAfter(stack, nodes, root);
      var cur := root.currentNode.value;
      var at := |PathToRoot(nodes, cur)| - 1;
      && at < |r|
      && (forall i :: 0 <= i < |r| ==> (r[i].isCurrent <==> i == at))
      && AreSymbolsIdentical(r[at].symbol, nodes[cur].symbol)
      && r[at].word == nodes[cur].word && r[at].wordRange == nodes[cur].wordRange
      && r[at].location == nodes[cur].location
  {
    ProjectionShape(nodes, root);
    var candidate := Projection(nodes, root);
    var at := |candidate| - 1;
    SymbolsIdenticalIsEquivalence(candidate[at].symbol, candidate[at].symbol, candidate[at].symbol);
  }

  /** Recolouring the projection of an empty tree, or of no tree, gives the empty stack. */
  lemma NewStackOfEmptyTree(stack: seq<StackElement>, nodes: seq<TreeNode>, root: TreeRoot)
    requires RootInArena(nodes, root) && (root.node.None? || root.currentNode.None?)
    ensures NewStackAfter(stack, nodes, root) == []
  {
  }

  /**
   * After reconciling with a tree that has a current node, the stack
   * contains the projection: whether refreshed in place or recoloured, its
   * first rows have the projection's symbols.
   */
  lemma NewStackContainsProjection(stack: seq<StackElement>, nodes: seq<TreeNode>, root: TreeRoot)
    requires ValidTree(nodes, root) && root.currentNode.Some?
    ensures ContainsPrefix(NewStackAfter(stack, nodes, root), Projection(nodes, root))
  {
    var candidate := Projection(nodes, root);
    var once := NewStackAfter(stack, nodes, root);
    ProjectionShape(nodes, root);
    forall i | 0 <= i < |candidate|
      ensures AreSymbolsIdentical(once[i].symbol, candidate[i].symbol)
    {
      if ContainsPrefix(stack, candidate) {
        SymbolsIdenticalIsEquivalence(stack[i].symbol, candidate[i].symbol, candidate[i].symbol);
      } else {
        SymbolsIdenticalIsEquivalence(candidate[i].symbol, candidate[i].symbol, candidate[i].symbol);
      }
    }
  }

  /**
   * Reconciling twice against the same tree changes nothing the second
   * time: a recoloured projection contains itself, and a refreshed stack is
   * refreshed to itself.
   */
  lemma NewStackIdempotent(stack: seq<StackElement>, nodes: seq<TreeNode>, root: TreeRoot)
    requires ValidTree(nodes, root)
    ensures var once := NewStackAfter(stack, nodes, root);
      NewStackAfter(once, nodes, root) == once
  {
    if root.currentNode.Some? {
      var candidate := Projection(nodes, root);
      var once := NewStackAfter(stack, nodes, root);
      ProjectionShape(nodes, root);
      NewStackContainsProjection(stack, nodes, root);
      var twice := Refreshed(once, candidate);
      forall i | 0 <= i < |once|
        ensures twice[i] == once[i]
      {
      }
    }
  }

  /**
   * Refreshing a stack whose only current row is the candidate's last row
   * changes that row's word, range and location to the candidate's, and
   * nothing else.
   */
  lemma RefreshAtCurrentRow(stack: seq<StackElement>, candidate: seq<StackElement>)
    requires 0 < |candidate| <= |stack|
    requires forall i :: 0 <= i < |stack| ==> (stack[i].isCurrent <==> i == |candidate| - 1)
    ensures var r := Refreshed(stack, candidate);
      var at := |candidate| - 1;
      && (forall i :: 0 <= i < |r| && i != at ==> r[i] == stack[i])
      && r[at] == stack[at].(word := candidate[at].word, wordRange := candidate[at].wordRange,
                             location := candidate[at].location)
  {
  }

  /**
   * Two arenas with the same parent links and symbols project rows with the
   * same symbols and node references: only words, ranges, locations, flags
   * and colours can differ.
   */
  lemma ProjectionFollowsLinks(nodes: seq<TreeNode>, nodes': seq<TreeNode>, cur: nat)
    requires ParentsBelow(nodes) && ParentsBelow(nodes') && cur < |nodes| == |nodes'|
    requires forall i :: 0 <= i < |nodes| ==> nodes'[i].parent == nodes[i].parent && nodes'[i].symbol == nodes[i].symbol
    ensures var st := Projection(nodes, TreeRoot(Some(0), Some(cur)));
      var st' := Projection(nodes', TreeRoot(Some(0), Some(cur)));
      && |st'| == |st|
      && forall k :: 0 <= k < |st| ==> st'[k].symbol == st[k].symbol && st'[k].node == st[k].node
  {
    var p := PathToRoot(nodes, cur);
    PathToRootFrame(nodes, nodes', cur);
    ElementsKeepRows(nodes, nodes', p);
    ReverseKeepsRows(Elements(nodes, p), Elements(nodes', p));
  }

  /** Same length, and row by row the same symbol and node. */
  predicate SameRows(a: seq<StackElement>, b: seq<StackElement>) {
    |a| == |b| && forall k :: 0 <= k < |a| ==> a[k].symbol == b[k].symbol && a[k].node == b[k].node
  }

  /** Copying the same slots from arenas that agree on symbols gives the same rows. */
  lemma ElementsKeepRows(nodes: seq<TreeNode>, nodes': seq<TreeNode>, order: seq<nat>)
    requires |nodes| == |nodes'| && forall k :: 0 <= k < |order| ==> order[k] < |nodes|
    requires forall i :: 0 <= i < |nodes| ==> nodes'[i].symbol == nodes[i].symbol
    ensures SameRows(Elements(nodes, order), Elements(nodes', order))
  {
  }

  lemma ReverseKeepsRows(a: seq<StackElement>, b: seq<StackElement>)
    requires SameRows(a, b)
    ensures SameRows(Reverse(a), Reverse(b))
  {
  }

  /*
   * The stack as a walk of the tree
   */

  /**
   * The stack is a root-down walk of the arena: every row references a slot
   * and carries that slot's symbol, the first row references the root, and
   * each row's node is the parent of the next row's.
   */
  ghost predicate OnTree(stack: seq<StackElement>, nodes: seq<TreeNode>) {
    && (forall k :: 0 <= k < |stack| ==> stack[k].node < |nodes| && stack[k].symbol == nodes[stack[k].node].symbol)
    && (|stack| > 0 ==> stack[0].node == 0)
    && (forall k :: 0 < k < |stack| ==> RowBelowPrevious(stack, nodes, k))
  }

  /** Row `k`'s node is a slot whose parent is row `k - 1`'s node. */
  ghost predicate RowBelowPrevious(stack: seq<StackElement>, nodes: seq<TreeNode>, k: nat)
    requires 0 < k < |stack|
  {
    stack[k].node < |nodes| && nodes[stack[k].node].parent == Some(stack[k - 1].node)
  }

  /** A walk stays a walk in an arena that keeps the parent links and symbols of the old slots. */
  lemma OnTreeFrame(stack: seq<StackElement>, nodes: seq<TreeNode>, nodes': seq<TreeNode>)
    requires OnTree(stack, nodes) && |nodes| <= |nodes'|
    requires forall i :: 0 <= i < |nodes| ==> nodes'[i].parent == nodes[i].parent && nodes'[i].symbol == nodes[i].symbol
    ensures OnTree(stack, nodes')
  {
    forall k | 0 < k < |stack|
      ensures RowBelowPrevious(stack, nodes', k)
    {
      assert RowBelowPrevious(stack, nodes, k);
    }
  }

  /**
   * Reconciling a walk of a valid tree with that tree gives a walk of it:
   * a refreshed stack keeps its rows' nodes and symbols, and a recoloured
   * projection is the walk from the root to the current node.
   */
  lemma NewStackOnTree(stack: seq<StackElement>, nodes: seq<TreeNode>, root: TreeRoot)
    requires ValidTree(nodes, root) && OnTree(stack, nodes)
    ensures OnTree(NewStackAfter(stack, nodes, root), nodes)
  {
    if root.currentNode.Some? {
      var candidate := Projection(nodes, root);
      if ContainsPrefix(stack, candidate) {
        RefreshedOnTree(stack, candidate, nodes);
      } else {
        ColoredProjectionOnTree(nodes, root);
      }
    }
  }

  /** Refreshing changes no row's node or symbol, so a walk stays a walk. */
  lemma RefreshedOnTree(stack: seq<StackElement>, candidate: seq<StackElement>, nodes: seq<TreeNode>)
    requires 0 < |candidate| <= |stack| && OnTree(stack, nodes)
    ensures OnTree(Refreshed(stack, candidate), nodes)
  {
    var r := Refreshed(stack, candidate);
    forall k | 0 < k < |r|
      ensures RowBelowPrevious(r, nodes, k)
    {
      assert RowBelowPrevious(stack, nodes, k);
    }
  }

  /** The recoloured projection of a valid tree with a current node is a walk of it. */
  lemma ColoredProjectionOnTree(nodes: seq<TreeNode>, root: TreeRoot)
    requires ValidTree(nodes, root) && root.currentNode.Some?
    ensures OnTree(Colored(Projection(nodes, root)), nodes)
  {
    var candidate := Projection(nodes, root);
    var r := Colored(candidate);
    ProjectionShape(nodes, root);
    forall k | 0 < k < |r|
      ensures RowBelowPrevious(r, nodes, k)
    {
      assert r[k].node == candidate[k].node && r[k - 1].node == candidate[k - 1].node;
    }
  }

  /**
   * A walk of a valid tree that contains the projection symbol by symbol
   * runs through the projection's own nodes: siblings have distinct
   * symbols, so each row can only be the projection's node at its depth.
   */
  lemma {:induction false} RowsFollowProjection(stack: seq<StackElement>, nodes: seq<TreeNode>, root: TreeRoot, k: nat)
    requires ValidTree(nodes, root) && root.currentNode.Some? && OnTree(stack, nodes)
    requires ContainsPrefix(stack, Projection(nodes, root)) && k < |Projection(nodes, root)|
    ensures stack[k].node == Projection(nodes, root)[k].node
    decreases k
  {
    var c := Projection(nodes, root);
    ProjectionShape(nodes, root);
    if k == 0 {
    } else {
      RowsFollowProjection(stack, nodes, root, k - 1);
      assert RowBelowPrevious(stack, nodes, k);
      var i := stack[k].node;
      var j := c[k].node;
      assert nodes[i].parent == nodes[j].parent;
      assert AreSymbolsIdentical(nodes[i].symbol, nodes[j].symbol);
      if i != j {
        assert false;
      }
    }
  }

  /**
   * When the stack is a walk of a valid tree, the row that reconciliation
   * marks current references the current node itself, so opening it opens
   * the current node.
   */
  lemma NewStackCurrentRowIsCurrentNode(stack: seq<StackElement>, nodes: seq<TreeNode>, root: TreeRoot)
    requires ValidTree(nodes, root) && root.currentNode.Some? && OnTree(stack, nodes)
    ensures var r := NewStackAfter(stack, nodes, root);
      var at := |PathToRoot(nodes, root.currentNode.value)| - 1;
      at < |r| && r[at].isCurrent && r[at].node == root.currentNode.value
  {
    var c := Projection(nodes, root);
    var at := |c| - 1;
    ProjectionShape(nodes, root);
    NewStackTracksCurrent(stack, nodes, root);
    if ContainsPrefix(stack, c) {
      RowsFollowProjection(stack, nodes, root, at);
    }
  }
}
