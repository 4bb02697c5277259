/**
 * The navigation-tree updater (src/extension.ts, `updateTree` and the state
 * change of the "open node" command), as a function from the old module
 * state and one observation to the new state, with the facts it keeps.
 */
module Navigation {
  import opened Wrappers
  import opened Editor
  import opened Constants
  import opened Helpers
  import opened Tree

  /** The module state `updateTree` reads and writes. */
  datatype TreeState = TreeState(
    nodes: seq<TreeNode>,
    root: TreeRoot,
    shouldIgnoreUpdate: bool,
    pathsArray: seq<string>)

  /** A node created from an observation: current, with no children yet. */
  function NewNode(symbol: DocumentSymbol, word: string, wordRange: Range, location: Location,
                   color: string, parent: Option<nat>): TreeNode
  {
    TreeNode(symbol, word, wordRange, location, color, true, [], parent)
  }

  /** A tree of one node, which is both root and current. */
  function SingleRoot(symbol: DocumentSymbol, word: string, wordRange: Range, location: Location): seq<TreeNode> {
    [NewNode(symbol, word, wordRange, location, PaletteColor(0), None)]
  }

  /**
   * Clear the flag of the old current node `cur`, then make `target` current
   * and overwrite its word, word range and location.
   */
  function MoveTo(nodes: seq<TreeNode>, cur: nat, target: nat, word: string, wordRange: Range, location: Location): (r: seq<TreeNode>)
    requires cur < |nodes| && target < |nodes|
    ensures |r| == |nodes|
    ensures forall i :: 0 <= i < |nodes| ==>
      && r[i].parent == nodes[i].parent && r[i].children == nodes[i].children && r[i].symbol == nodes[i].symbol
      && r[i].color == nodes[i].color
      && (r[i].current <==> (i == target || (i != cur && nodes[i].current)))
    ensures forall i :: 0 <= i < |nodes| && i != target ==>
      r[i].word == nodes[i].word && r[i].wordRange == nodes[i].wordRange && r[i].location == nodes[i].location
    ensures r[target].word == word && r[target].wordRange == wordRange && r[target].location == location
  {
    var cleared := nodes[cur := nodes[cur].(current := false)];
    cleared[target := cleared[target].(word := word, wordRange := wordRange, location := location, current := true)]
  }

  /** Clear the flag of `cur` and append a new current child to it, in a new last slot. */
  function Extend(nodes: seq<TreeNode>, cur: nat, symbol: DocumentSymbol, word: string, wordRange: Range,
                  location: Location, color: string): (r: seq<TreeNode>)
    requires cur < |nodes|
    ensures |r| == |nodes| + 1
    ensures forall i :: 0 <= i < |nodes| && i != cur ==> r[i] == nodes[i]
    ensures r[cur] == nodes[cur].(current := false, children := nodes[cur].children + [|nodes|])
    ensures r[|nodes|] == NewNode(symbol, word, wordRange, location, color, Some(cur))
  {
    nodes[cur := nodes[cur].(current := false, children := nodes[cur].children + [|nodes|])]
      + [NewNode(symbol, word, wordRange, location, color, Some(cur))]
  }

  /** The tree root's references point into the arena, and there is a current node exactly when there is a tree. */
  ghost predicate Addressed(nodes: seq<TreeNode>, root: TreeRoot) {
    RootInArena(nodes, root) && (root.node.Some? <==> root.currentNode.Some?)
  }

  /** The paths `updateTree` can take for one observation. */
  datatype Branch = Ignored | Reset | NewRoot | ToChild(child: nat) | ToAncestor(ancestor: nat) | ExtendCurrent | FreshRoot

  /** What a branch needs of the state to be taken: a symbol to plant, a current node to move from or extend, a target in the arena. */
  ghost predicate Fits(s: TreeState, symbol: Option<DocumentSymbol>, b: Branch) {
    && Addressed(s.nodes, s.root)
    && (b.NewRoot? || b.ToChild? || b.ToAncestor? || b.ExtendCurrent? || b.FreshRoot? ==> symbol.Some?)
    && (b.ToChild? || b.ToAncestor? || b.ExtendCurrent? ==> s.root.currentNode.Some?)
    && (b.ToChild? ==> b.child < |s.nodes|)
    && (b.ToAncestor? ==> b.ancestor < |s.nodes|)
  }

  /**
   * The branch taken, tried in the source's order: the one-shot ignore flag;
   * no symbol; an empty tree; a direct child of the current node with an
   * identical symbol; the nearest identical node from the current node up to
   * the root; a symbol named like the current node's word; otherwise a new tree.
   */
  function BranchOf(s: TreeState, symbol: Option<DocumentSymbol>): (b: Branch)
    requires Addressed(s.nodes, s.root)
    ensures Fits(s, symbol, b)
    ensures b.ToChild? || b.ToAncestor? || b.ExtendCurrent? || b.FreshRoot? ==> !s.shouldIgnoreUpdate
  {
    if s.shouldIgnoreUpdate then Ignored
    else if symbol.None? then Reset
    else if s.root.node.None? then NewRoot
    else
      match FindIfSymbolIsChildOfCurrentNode(s.nodes, s.root, symbol.value)
      case Some(c) => ToChild(c)
      case None =>
        match FindIfSymbolIsAncestorOfCurrentNode(s.nodes, s.root, symbol.value)
        case Some(a) => ToAncestor(a)
        case None =>
          if symbol.value.name == s.nodes[s.root.currentNode.value].word then ExtendCurrent else FreshRoot
  }

  /**
   * The state after `updateTree(symbol, word, location, wordRange)`. New
   * nodes are coloured by `getFileColor`, whose palette index is the length
   * of the paths list before the path is appended; `pathsArray` is emptied
   * before a new tree's root is coloured (and, for a tree started from
   * empty, emptied again afterwards).
   */
  function UpdateTreeSpec(s: TreeState, symbol: Option<DocumentSymbol>, word: string, location: Location, wordRange: Range): (r: TreeState)
    requires Addressed(s.nodes, s.root)
    ensures !r.shouldIgnoreUpdate
  {
    TakeBranch(s, symbol, BranchOf(s, symbol), word, location, wordRange)
  }

  /** The state after taking branch `b` for the observation. */
  function TakeBranch(s: TreeState, symbol: Option<DocumentSymbol>, b: Branch, word: string, location: Location, wordRange: Range): (r: TreeState)
    requires Fits(s, symbol, b)
    ensures r.shouldIgnoreUpdate ==> s.shouldIgnoreUpdate && !b.Ignored?
    ensures b.Ignored? || b.Reset? ==> r.pathsArray == s.pathsArray
    ensures !b.Ignored? && !b.Reset? ==> r.root.currentNode.Some? && r.root.currentNode.value < |r.nodes|
  {
    match b
    case Ignored => s.(shouldIgnoreUpdate := false)
    case Reset => s.(nodes := [], root := EmptyRoot)
    case NewRoot =>
      TreeState(SingleRoot(symbol.value, word, wordRange, location), TreeRoot(Some(0), Some(0)), false, [])
    case ToChild(c) =>
      s.(nodes := MoveTo(s.nodes, s.root.currentNode.value, c, word, wordRange, location),
         root := s.root.(currentNode := Some(c)))
    case ToAncestor(a) =>
      s.(nodes := MoveTo(s.nodes, s.root.currentNode.value, a, word, wordRange, location),
         root := s.root.(currentNode := Some(a)))
    case ExtendCurrent =>
      s.(nodes := Extend(s.nodes, s.root.currentNode.value, symbol.value, word, wordRange, location,
                         PaletteColor(|s.pathsArray|)),
         root := s.root.(currentNode := Some(|s.nodes|)),
         pathsArray := s.pathsArray + [location.uri.fsPath])
    case FreshRoot =>
      TreeState(SingleRoot(symbol.value, word, wordRange, location), TreeRoot(Some(0), Some(0)), false,
                [location.uri.fsPath])
  }

  /**
   * The state change of the "open node" command: the old current node's
   * flag is cleared and `target` becomes the current node.
   */
  function OpenNodeSpec(nodes: seq<TreeNode>, root: TreeRoot, target: nat): (r: (seq<TreeNode>, TreeRoot))
    requires root.currentNode.Some? && root.currentNode.value < |nodes| && target < |nodes|
    ensures r.1 == root.(currentNode := Some(target)) && |r.0| == |nodes|
    ensures forall i :: 0 <= i < |nodes| ==>
      && r.0[i] == nodes[i].(current := r.0[i].current)
      && (r.0[i].current <==> (i == target || (i != root.currentNode.value && nodes[i].current)))
  {
    var cleared := nodes[root.currentNode.value := nodes[root.currentNode.value].(current := false)];
    (cleared[target := cleared[target].(current := true)], root.(currentNode := Some(target)))
  }

  /*
   * Validity is kept by every path
   */

  /** Two arenas with the same links and symbols, differing only in words, locations and flags. */
  ghost predicate SameShape(nodes: seq<TreeNode>, nodes': seq<TreeNode>) {
    && |nodes'| == |nodes|
    && forall i :: 0 <= i < |nodes| ==>
         nodes'[i].parent == nodes[i].parent && nodes'[i].children == nodes[i].children
         && nodes'[i].symbol == nodes[i].symbol
  }

  lemma SameShapeKeepsInvariants(nodes: seq<TreeNode>, nodes': seq<TreeNode>)
    requires WellFormed(nodes) && PathsDistinct(nodes) && SiblingsDistinct(nodes)
    requires SameShape(nodes, nodes')
    ensures WellFormed(nodes') && PathsDistinct(nodes') && SiblingsDistinct(nodes')
  {
    forall i | 0 <= i < |nodes|
      ensures ChildrenPointBack(nodes', i) && (i > 0 ==> ListedByParent(nodes', i))
    {
      assert ChildrenPointBack(nodes, i);
      if i > 0 {
        assert ListedByParent(nodes, i);
      }
    }
    forall i | 0 <= i < |nodes|
      ensures PathToRoot(nodes', i) == PathToRoot(nodes, i)
    {
      PathToRootFrame(nodes, nodes', i);
    }
  }

  lemma SingleRootValid(symbol: DocumentSymbol, word: string, wordRange: Range, location: Location)
    ensures ValidTree(SingleRoot(symbol, word, wordRange, location), TreeRoot(Some(0), Some(0)))
  {
    var nodes := SingleRoot(symbol, word, wordRange, location);
    assert PathToRoot(nodes, 0) == [0];
  }

  /** Moving the current node within a valid tree keeps it valid. */
  lemma MoveToValid(nodes: seq<TreeNode>, root: TreeRoot, target: nat, word: string, wordRange: Range, location: Location)
    requires ValidTree(nodes, root) && root.currentNode.Some? && target < |nodes|
    ensures ValidTree(MoveTo(nodes, root.currentNode.value, target, word, wordRange, location),
                      root.(currentNode := Some(target)))
    ensures SameShape(nodes, MoveTo(nodes, root.currentNode.value, target, word, wordRange, location))
  {
    var nodes' := MoveTo(nodes, root.currentNode.value, target, word, wordRange, location);
    assert SameShape(nodes, nodes');
    SameShapeKeepsInvariants(nodes, nodes');
    assert forall i :: 0 <= i < |nodes'| ==> (nodes'[i].current <==> i == target);
  }

  /** Opening a node of a valid tree keeps it valid. */
  lemma OpenNodeValid(nodes: seq<TreeNode>, root: TreeRoot, target: nat)
    requires ValidTree(nodes, root) && root.currentNode.Some? && target < |nodes|
    ensures ValidTree(OpenNodeSpec(nodes, root, target).0, OpenNodeSpec(nodes, root, target).1)
    ensures OpenNodeSpec(nodes, root, target).1.currentNode == Some(target)
    ensures SameShape(nodes, OpenNodeSpec(nodes, root, target).0)
  {
    var (nodes', root') := OpenNodeSpec(nodes, root, target);
    assert SameShape(nodes, nodes');
    SameShapeKeepsInvariants(nodes, nodes');
    assert forall i :: 0 <= i < |nodes'| ==> (nodes'[i].current <==> i == target);
  }

  /** Appending a child to `cur` keeps the parent and children links well formed. */
  lemma ExtendWellFormed(nodes: seq<TreeNode>, cur: nat, symbol: DocumentSymbol, word: string, wordRange: Range,
                         location: Location, color: string)
    requires WellFormed(nodes) && cur < |nodes|
    ensures WellFormed(Extend(nodes, cur, symbol, word, wordRange, location, color))
  {
    var n := |nodes|;
    var nodes' := Extend(nodes, cur, symbol, word, wordRange, location, color);
    assert forall i :: 0 <= i < n ==> nodes'[i].parent == nodes[i].parent;
    assert ParentsBelow(nodes');
    assert ChildrenAbove(nodes') by {
      forall i, k | 0 <= i < |nodes'| && 0 <= k < |nodes'[i].children|
        ensures i < nodes'[i].children[k] < |nodes'|
      {
        if i == cur && k < |nodes[cur].children| {
          assert nodes'[i].children[k] == nodes[cur].children[k];
        }
      }
    }
    assert forall i :: 0 <= i < |nodes'| ==> (nodes'[i].parent.None? <==> i == 0);
    forall i | 0 <= i < |nodes'|
      ensures ChildrenPointBack(nodes', i)
    {
      if i < n {
        assert ChildrenPointBack(nodes, i);
      }
      forall k | 0 <= k < |nodes'[i].children|
        ensures nodes'[nodes'[i].children[k]].parent == Some(i)
      {
        if i == cur && k < |nodes[cur].children| {
          assert nodes'[i].children[k] == nodes[cur].children[k];
        }
      }
    }
    assert forall i, k, l :: 0 <= i < |nodes'| && 0 <= k < l < |nodes'[i].children| ==>
             nodes'[i].children[k] < nodes'[i].children[l] by {
      forall i, k, l | 0 <= i < |nodes'| && 0 <= k < l < |nodes'[i].children|
        ensures nodes'[i].children[k] < nodes'[i].children[l]
      {
        if i == cur {
          assert nodes'[i].children[k] == nodes[cur].children[k];
          if l < |nodes[cur].children| {
            assert nodes'[i].children[l] == nodes[cur].children[l];
          }
        }
      }
    }
    forall j | 0 < j < |nodes'|
      ensures ListedByParent(nodes', j)
    {
      if j < n {
        assert ListedByParent(nodes, j);
      }
    }
  }

  /** Appending a node leaves every old walk up unchanged; the new node's walk goes through `cur`. */
  lemma ExtendPaths(nodes: seq<TreeNode>, cur: nat, symbol: DocumentSymbol, word: string, wordRange: Range,
                    location: Location, color: string)
    requires ParentsBelow(nodes) && cur < |nodes|
    ensures ParentsBelow(Extend(nodes, cur, symbol, word, wordRange, location, color))
    ensures forall i :: 0 <= i < |nodes| ==>
      PathToRoot(Extend(nodes, cur, symbol, word, wordRange, location, color), i) == PathToRoot(nodes, i)
    ensures PathToRoot(Extend(nodes, cur, symbol, word, wordRange, location, color), |nodes|)
      == [|nodes|] + PathToRoot(nodes, cur)
  {
    var nodes' := Extend(nodes, cur, symbol, word, wordRange, location, color);
    assert forall i :: 0 <= i < |nodes| ==> nodes'[i].parent == nodes[i].parent;
    forall i | 0 <= i < |nodes|
      ensures PathToRoot(nodes', i) == PathToRoot(nodes, i)
    {
      PathToRootFrame(nodes, nodes', i);
    }
  }

  /**
   * Extending is valid when no child of the current node and no node from
   * the current node up to the root has a symbol identical to the new one.
   */
  lemma ExtendValid(nodes: seq<TreeNode>, root: TreeRoot, symbol: DocumentSymbol, word: string, wordRange: Range,
                    location: Location, color: string)
    requires ValidTree(nodes, root) && root.currentNode.Some?
    requires FindIfSymbolIsChildOfCurrentNode(nodes, root, symbol).None?
    requires FindIfSymbolIsAncestorOfCurrentNode(nodes, root, symbol).None?
    ensures ValidTree(Extend(nodes, root.currentNode.value, symbol, word, wordRange, location, color),
                      root.(currentNode := Some(|nodes|)))
  {
    var cur := root.currentNode.value;
    var n := |nodes|;
    var nodes' := Extend(nodes, cur, symbol, word, wordRange, location, color);
    ExtendWellFormed(nodes, cur, symbol, word, wordRange, location, color);
    ExtendPathsDistinct(nodes, cur, symbol, word, wordRange, location, color);
    ExtendSiblingsDistinct(nodes, root, symbol, word, wordRange, location, color);
    assert forall i :: 0 <= i < |nodes'| ==> (nodes'[i].current <==> i == n);
  }

  lemma ExtendPathsDistinct(nodes: seq<TreeNode>, cur: nat, symbol: DocumentSymbol, word: string, wordRange: Range,
                            location: Location, color: string)
    requires ParentsBelow(nodes) && PathsDistinct(nodes) && cur < |nodes|
    requires forall k :: 0 <= k < |PathToRoot(nodes, cur)| ==>
      !AreSymbolsIdentical(nodes[PathToRoot(nodes, cur)[k]].symbol, symbol)
    ensures ParentsBelow(Extend(nodes, cur, symbol, word, wordRange, location, color))
    ensures PathsDistinct(Extend(nodes, cur, symbol, word, wordRange, location, color))
  {
    var nodes' := Extend(nodes, cur, symbol, word, wordRange, location, color);
    ExtendPaths(nodes, cur, symbol, word, wordRange, location, color);
    forall i | 0 <= i < |nodes'|
      ensures forall k :: 0 < k < |PathToRoot(nodes', i)| ==>
        !AreSymbolsIdentical(nodes'[PathToRoot(nodes', i)[k]].symbol, nodes'[i].symbol)
    {
      if i < |nodes| {
        ExtendKeepsOldPath(nodes, cur, symbol, word, wordRange, location, color, i);
      } else {
        ExtendNewPath(nodes, cur, symbol, word, wordRange, location, color);
      }
    }
  }

  lemma ExtendKeepsOldPath(nodes: seq<TreeNode>, cur: nat, symbol: DocumentSymbol, word: string, wordRange: Range,
                           location: Location, color: string, i: nat)
    requires ParentsBelow(nodes) && PathsDistinct(nodes) && cur < |nodes| && i < |nodes|
    requires ParentsBelow(Extend(nodes, cur, symbol, word, wordRange, location, color))
    requires PathToRoot(Extend(nodes, cur, symbol, word, wordRange, location, color), i) == PathToRoot(nodes, i)
    ensures var nodes' := Extend(nodes, cur, symbol, word, wordRange, location, color);
      forall k :: 0 < k < |PathToRoot(nodes', i)| ==>
        !AreSymbolsIdentical(nodes'[PathToRoot(nodes', i)[k]].symbol, nodes'[i].symbol)
  {
    var nodes' := Extend(nodes, cur, symbol, word, wordRange, location, color);
    var p := PathToRoot(nodes, i);
    forall k | 0 < k < |p|
      ensures !AreSymbolsIdentical(nodes'[p[k]].symbol, nodes'[i].symbol)
    {
      assert nodes'[p[k]].symbol == nodes[p[k]].symbol;
    }
  }

  lemma ExtendNewPath(nodes: seq<TreeNode>, cur: nat, symbol: DocumentSymbol, word: string, wordRange: Range,
                      location: Location, color: string)
    requires ParentsBelow(nodes) && cur < |nodes|
    requires forall k :: 0 <= k < |PathToRoot(nodes, cur)| ==>
      !AreSymbolsIdentical(nodes[PathToRoot(nodes, cur)[k]].symbol, symbol)
    requires ParentsBelow(Extend(nodes, cur, symbol, word, wordRange, location, color))
    requires PathToRoot(Extend(nodes, cur, symbol, word, wordRange, location, color), |nodes|)
      == [|nodes|] + PathToRoot(nodes, cur)
    ensures var nodes' := Extend(nodes, cur, symbol, word, wordRange, location, color);
      forall k :: 0 < k < |PathToRoot(nodes', |nodes|)| ==>
        !AreSymbolsIdentical(nodes'[PathToRoot(nodes', |nodes|)[k]].symbol, nodes'[|nodes|].symbol)
  {
    var nodes' := Extend(nodes, cur, symbol, word, wordRange, location, color);
    var p := PathToRoot(nodes, cur);
    forall k | 0 < k < 1 + |p|
      ensures !AreSymbolsIdentical(nodes'[([|nodes|] + p)[k]].symbol, nodes'[|nodes|].symbol)
    {
      assert ([|nodes|] + p)[k] == p[k - 1];
      assert nodes'[p[k - 1]].symbol == nodes[p[k - 1]].symbol;
    }
  }

  lemma ExtendSiblingsDistinct(nodes: seq<TreeNode>, root: TreeRoot, symbol: DocumentSymbol, word: string, wordRange: Range,
                               location: Location, color: string)
    requires ValidTree(nodes, root) && root.currentNode.Some?
    requires FindIfSymbolIsChildOfCurrentNode(nodes, root, symbol).None?
    ensures SiblingsDistinct(Extend(nodes, root.currentNode.value, symbol, word, wordRange, location, color))
  {
    var cur := root.currentNode.value;
    var n := |nodes|;
    var nodes' := Extend(nodes, cur, symbol, word, wordRange, location, color);
    forall i, j | 0 <= i < j < |nodes'| && nodes'[i].parent == nodes'[j].parent
      ensures !AreSymbolsIdentical(nodes'[i].symbol, nodes'[j].symbol)
    {
      if j == n {
        assert ListedByParent(nodes, i);
        var k :| 0 <= k < |nodes[cur].children| && nodes[cur].children[k] == i;
      }
    }
  }

  /** Every observation leaves a valid tree valid. */
  lemma UpdateTreeKeepsValidity(s: TreeState, symbol: Option<DocumentSymbol>, word: string, location: Location, wordRange: Range)
    requires ValidTree(s.nodes, s.root)
    ensures ValidTree(UpdateTreeSpec(s, symbol, word, location, wordRange).nodes,
                      UpdateTreeSpec(s, symbol, word, location, wordRange).root)
  {
    var b := BranchOf(s, symbol);
    if b.ToChild? || b.ToAncestor? {
      MoveBranchKeepsValidity(s, symbol, word, location, wordRange);
    } else if b.ExtendCurrent? {
      ExtendValid(s.nodes, s.root, symbol.value, word, wordRange, location, PaletteColor(|s.pathsArray|));
    } else if b.NewRoot? || b.FreshRoot? {
      SingleRootValid(symbol.value, word, wordRange, location);
    }
  }

  lemma MoveBranchKeepsValidity(s: TreeState, symbol: Option<DocumentSymbol>, word: string, location: Location, wordRange: Range)
    requires ValidTree(s.nodes, s.root)
    requires BranchOf(s, symbol).ToChild? || BranchOf(s, symbol).ToAncestor?
    ensures ValidTree(UpdateTreeSpec(s, symbol, word, location, wordRange).nodes,
                      UpdateTreeSpec(s, symbol, word, location, wordRange).root)
  {
    var m;
    if BranchOf(s, symbol).ToChild? {
      m := ChildMoveTarget(s, symbol, word, location, wordRange);
    } else {
      m := AncestorMoveTarget(s, symbol, word, location, wordRange);
    }
    MoveToValid(s.nodes, s.root, m, word, wordRange, location);
  }

  /**
   * Every path keeps the tree root's references inside the arena and keeps
   * a current node exactly when there is a tree; this needs no more than
   * the same of the old state.
   */
  lemma UpdateTreeKeepsAddressed(s: TreeState, symbol: Option<DocumentSymbol>, word: string, location: Location, wordRange: Range)
    requires Addressed(s.nodes, s.root)
    ensures var t := UpdateTreeSpec(s, symbol, word, location, wordRange);
      Addressed(t.nodes, t.root)
  {
    match BranchOf(s, symbol)
    case ToChild(_) =>
      var m := ChildMoveTarget(s, symbol, word, location, wordRange);
    case ToAncestor(_) =>
      var m := AncestorMoveTarget(s, symbol, word, location, wordRange);
    case ExtendCurrent =>
      ExtendAddressed(s.nodes, s.root.currentNode.value, symbol.value, word, wordRange, location,
                      PaletteColor(|s.pathsArray|));
    case _ =>
  }

  /** Appending a child keeps parents below and children above their node. */
  lemma ExtendAddressed(nodes: seq<TreeNode>, cur: nat, symbol: DocumentSymbol, word: string, wordRange: Range,
                        location: Location, color: string)
    requires ParentsBelow(nodes) && ChildrenAbove(nodes) && cur < |nodes|
    ensures ParentsBelow(Extend(nodes, cur, symbol, word, wordRange, location, color))
    ensures ChildrenAbove(Extend(nodes, cur, symbol, word, wordRange, location, color))
  {
    var nodes' := Extend(nodes, cur, symbol, word, wordRange, location, color);
    forall i, k | 0 <= i < |nodes'| && 0 <= k < |nodes'[i].children|
      ensures i < nodes'[i].children[k] < |nodes'|
    {
      if i == cur && k == |nodes[cur].children| {
        assert nodes'[i].children[k] == |nodes|;
      }
    }
  }

  /** A move to a child targets a node of the arena and changes only the arena and the current node. */
  lemma ChildMoveTarget(s: TreeState, symbol: Option<DocumentSymbol>, word: string, location: Location, wordRange: Range)
    returns (m: nat)
    requires Addressed(s.nodes, s.root) && BranchOf(s, symbol).ToChild?
    ensures BranchOf(s, symbol) == ToChild(m)
    ensures s.root.currentNode.Some? && s.root.currentNode.value < |s.nodes| && m < |s.nodes|
    ensures UpdateTreeSpec(s, symbol, word, location, wordRange)
      == s.(nodes := MoveTo(s.nodes, s.root.currentNode.value, m, word, wordRange, location),
            root := s.root.(currentNode := Some(m)))
  {
    m := BranchOf(s, symbol).child;
  }

  /** The same for a move to an ancestor. */
  lemma AncestorMoveTarget(s: TreeState, symbol: Option<DocumentSymbol>, word: string, location: Location, wordRange: Range)
    returns (m: nat)
    requires Addressed(s.nodes, s.root) && BranchOf(s, symbol).ToAncestor?
    ensures BranchOf(s, symbol) == ToAncestor(m)
    ensures s.root.currentNode.Some? && s.root.currentNode.value < |s.nodes| && m < |s.nodes|
    ensures UpdateTreeSpec(s, symbol, word, location, wordRange)
      == s.(nodes := MoveTo(s.nodes, s.root.currentNode.value, m, word, wordRange, location),
            root := s.root.(currentNode := Some(m)))
  {
    m := BranchOf(s, symbol).ancestor;
  }

  /*
   * What each path does
   */

  /** The ignore flag swallows exactly one observation; an absent symbol clears the tree but not the paths list. */
  lemma UpdateTreeIgnoredOrReset(s: TreeState, symbol: Option<DocumentSymbol>, word: string, location: Location, wordRange: Range)
    requires Addressed(s.nodes, s.root)
    ensures s.shouldIgnoreUpdate ==> UpdateTreeSpec(s, symbol, word, location, wordRange) == s.(shouldIgnoreUpdate := false)
    ensures !s.shouldIgnoreUpdate && symbol.None? ==>
      UpdateTreeSpec(s, symbol, word, location, wordRange) == s.(nodes := [], root := EmptyRoot)
    ensures !UpdateTreeSpec(s, symbol, word, location, wordRange).shouldIgnoreUpdate
  {
  }

  /** A symbol observed on an empty tree becomes a single current root with the first palette colour. */
  lemma UpdateTreeStartsTree(s: TreeState, symbol: DocumentSymbol, word: string, location: Location, wordRange: Range)
    requires Addressed(s.nodes, s.root) && !s.shouldIgnoreUpdate && s.root.node.None?
    ensures var t := UpdateTreeSpec(s, Some(symbol), word, location, wordRange);
      && t.nodes == [TreeNode(symbol, word, wordRange, location, "#c586c0", true, [], None)]
      && t.root == TreeRoot(Some(0), Some(0))
      && t.pathsArray == []
  {
    PaletteFacts();
  }

  /**
   * When a direct child of the current node has an identical symbol, the
   * first such child becomes current, whatever the ancestors or the word
   * say; no node is added, removed or re-linked, and only the new current
   * node's word, range and location change.
   */
  lemma UpdateTreeMovesToChild(s: TreeState, symbol: DocumentSymbol, word: string, location: Location, wordRange: Range)
    requires Addressed(s.nodes, s.root) && !s.shouldIgnoreUpdate && s.root.node.Some?
    requires var cs := s.nodes[s.root.currentNode.value].children;
      exists k :: 0 <= k < |cs| && AreSymbolsIdentical(s.nodes[cs[k]].symbol, symbol)
    ensures var t := UpdateTreeSpec(s, Some(symbol), word, location, wordRange);
      && t.root.currentNode == FirstIdentical(s.nodes, s.nodes[s.root.currentNode.value].children, symbol)
      && t.root.node == s.root.node && t.pathsArray == s.pathsArray
      && SameShape(s.nodes, t.nodes)
      && forall i :: 0 <= i < |s.nodes| && Some(i) != t.root.currentNode ==>
           t.nodes[i].word == s.nodes[i].word && t.nodes[i].wordRange == s.nodes[i].wordRange
           && t.nodes[i].location == s.nodes[i].location
  {
    var c := FindIfSymbolIsChildOfCurrentNode(s.nodes, s.root, symbol);
    assert c.Some?;
    assert BranchOf(s, Some(symbol)) == ToChild(c.value);
  }

  /**
   * When no child matches but a node from the current node up to the root
   * does, the nearest such node becomes current, even when the symbol's
   * name equals the current word; again the tree's shape is untouched.
   */
  lemma UpdateTreeMovesToAncestor(s: TreeState, symbol: DocumentSymbol, word: string, location: Location, wordRange: Range)
    requires Addressed(s.nodes, s.root) && !s.shouldIgnoreUpdate && s.root.node.Some?
    requires var cs := s.nodes[s.root.currentNode.value].children;
      forall k :: 0 <= k < |cs| ==> !AreSymbolsIdentical(s.nodes[cs[k]].symbol, symbol)
    requires var p := PathToRoot(s.nodes, s.root.currentNode.value);
      exists k :: 0 <= k < |p| && AreSymbolsIdentical(s.nodes[p[k]].symbol, symbol)
    ensures var t := UpdateTreeSpec(s, Some(symbol), word, location, wordRange);
      && t.root.currentNode == FirstIdentical(s.nodes, PathToRoot(s.nodes, s.root.currentNode.value), symbol)
      && t.root.node == s.root.node && t.pathsArray == s.pathsArray
      && SameShape(s.nodes, t.nodes)
      && forall i :: 0 <= i < |s.nodes| && Some(i) != t.root.currentNode ==>
           t.nodes[i].word == s.nodes[i].word && t.nodes[i].wordRange == s.nodes[i].wordRange
           && t.nodes[i].location == s.nodes[i].location
  {
    assert FindIfSymbolIsChildOfCurrentNode(s.nodes, s.root, symbol).None?;
    var a := FindIfSymbolIsAncestorOfCurrentNode(s.nodes, s.root, symbol);
    assert a.Some?;
    assert BranchOf(s, Some(symbol)) == ToAncestor(a.value);
  }

  /**
   * When nothing matches and the symbol is named like the current node's
   * word, exactly one childless node is appended as the last child of the
   * old current node; it takes the next palette colour and its path is
   * recorded. Every other node keeps everything but the old current flag.
   */
  lemma UpdateTreeExtends(s: TreeState, symbol: DocumentSymbol, word: string, location: Location, wordRange: Range)
    requires Addressed(s.nodes, s.root) && !s.shouldIgnoreUpdate && s.root.node.Some?
    requires var cs := s.nodes[s.root.currentNode.value].children;
      forall k :: 0 <= k < |cs| ==> !AreSymbolsIdentical(s.nodes[cs[k]].symbol, symbol)
    requires forall k :: 0 <= k < |PathToRoot(s.nodes, s.root.currentNode.value)| ==>
      !AreSymbolsIdentical(s.nodes[PathToRoot(s.nodes, s.root.currentNode.value)[k]].symbol, symbol)
    requires symbol.name == s.nodes[s.root.currentNode.value].word
    ensures var t := UpdateTreeSpec(s, Some(symbol), word, location, wordRange);
      var cur := s.root.currentNode.value;
      var n := |s.nodes|;
      && |t.nodes| == n + 1
      && t.root == s.root.(currentNode := Some(n))
      && t.nodes[n] == TreeNode(symbol, word, wordRange, location,
                                ALLOWED_COLORS[|s.pathsArray| % 7], true, [], Some(cur))
      && t.nodes[cur] == s.nodes[cur].(current := false, children := s.nodes[cur].children + [n])
      && (forall i :: 0 <= i < n && i != cur ==> t.nodes[i] == s.nodes[i])
      && t.pathsArray == s.pathsArray + [location.uri.fsPath]
  {
    assert FindIfSymbolIsChildOfCurrentNode(s.nodes, s.root, symbol).None?;
    assert FindIfSymbolIsAncestorOfCurrentNode(s.nodes, s.root, symbol).None?;
    assert BranchOf(s, Some(symbol)) == ExtendCurrent;
    PaletteFacts();
  }

  /**
   * When nothing matches and the name differs from the current word, the
   * old tree is dropped for a single current root coloured with the first
   * palette entry, and the paths list restarts with its file.
   */
  lemma UpdateTreeRestarts(s: TreeState, symbol: DocumentSymbol, word: string, location: Location, wordRange: Range)
    requires Addressed(s.nodes, s.root) && !s.shouldIgnoreUpdate && s.root.node.Some?
    requires var cs := s.nodes[s.root.currentNode.value].children;
      forall k :: 0 <= k < |cs| ==> !AreSymbolsIdentical(s.nodes[cs[k]].symbol, symbol)
    requires forall k :: 0 <= k < |PathToRoot(s.nodes, s.root.currentNode.value)| ==>
      !AreSymbolsIdentical(s.nodes[PathToRoot(s.nodes, s.root.currentNode.value)[k]].symbol, symbol)
    requires symbol.name != s.nodes[s.root.currentNode.value].word
    ensures var t := UpdateTreeSpec(s, Some(symbol), word, location, wordRange);
      && t.nodes == [TreeNode(symbol, word, wordRange, location, "#c586c0", true, [], None)]
      && t.root == TreeRoot(Some(0), Some(0))
      && t.pathsArray == [location.uri.fsPath]
  {
    assert FindIfSymbolIsChildOfCurrentNode(s.nodes, s.root, symbol).None?;
    assert FindIfSymbolIsAncestorOfCurrentNode(s.nodes, s.root, symbol).None?;
    assert BranchOf(s, Some(symbol)) == FreshRoot;
    PaletteFacts();
  }

  /**
   * Whichever path a symbol takes, the new current node is in the arena,
   * its symbol is identical to the observed one and it carries the
   * observed word, word range and location.
   */
  lemma UpdateTreeLandsOnObservation(s: TreeState, symbol: DocumentSymbol, word: string, location: Location, wordRange: Range)
    requires Addressed(s.nodes, s.root) && !s.shouldIgnoreUpdate
    ensures var t := UpdateTreeSpec(s, Some(symbol), word, location, wordRange);
      && t.root.currentNode.Some? && t.root.currentNode.value < |t.nodes|
      && AreSymbolsIdentical(t.nodes[t.root.currentNode.value].symbol, symbol)
      && t.nodes[t.root.currentNode.value].word == word
      && t.nodes[t.root.currentNode.value].wordRange == wordRange
      && t.nodes[t.root.currentNode.value].location == location
  {
    match BranchOf(s, Some(symbol))
    case NewRoot =>
    case ToChild(c) =>
    case ToAncestor(a) =>
    case ExtendCurrent =>
    case FreshRoot =>
  }

  /**
   * Observing the same thing twice in a row changes nothing the second
   * time: the node made current by the first observation is found again,
   * as the first node of its own walk to the root, and refreshed with equal values.
   */
  lemma UpdateTreeIdempotent(s: TreeState, symbol: Option<DocumentSymbol>, word: string, location: Location, wordRange: Range)
    requires ValidTree(s.nodes, s.root) && !s.shouldIgnoreUpdate
    ensures var t := UpdateTreeSpec(s, symbol, word, location, wordRange);
      ValidTree(t.nodes, t.root) && UpdateTreeSpec(t, symbol, word, location, wordRange) == t
  {
    var t := UpdateTreeSpec(s, symbol, word, location, wordRange);
    UpdateTreeKeepsValidity(s, symbol, word, location, wordRange);
    UpdateTreeIgnoredOrReset(s, symbol, word, location, wordRange);
    if symbol.Some? {
      UpdateTreeLandsOnObservation(s, symbol.value, word, location, wordRange);
      RevisitIsNoOp(t, symbol.value, word, location, wordRange);
    } else {
      UpdateTreeIgnoredOrReset(t, symbol, word, location, wordRange);
    }
  }

  /** A fresh tree is started only for a symbol that is not identical to the old root's. */
  lemma FreshRootMissesOldRoot(s: TreeState, symbol: DocumentSymbol)
    requires ValidTree(s.nodes, s.root) && BranchOf(s, Some(symbol)).FreshRoot?
    ensures |s.nodes| > 0 && !AreSymbolsIdentical(s.nodes[0].symbol, symbol)
  {
    var cur := s.root.currentNode.value;
    var p := PathToRoot(s.nodes, cur);
    AncestorSearchIsFirstIdentical(s.nodes, s.root, symbol);
    PathEndsAtRoot(s.nodes, cur);
    assert !AreSymbolsIdentical(s.nodes[p[|p| - 1]].symbol, symbol);
  }

  /**
   * Every path that keeps the tree keeps its old slots: the ignored
   * observation, the moves and the extension change no old node's parent
   * link or symbol, and only the extension adds a slot.
   */
  lemma UpdateTreeKeepsOldSlots(s: TreeState, symbol: Option<DocumentSymbol>, word: string, location: Location, wordRange: Range)
    requires Addressed(s.nodes, s.root)
    requires BranchOf(s, symbol).Ignored? || BranchOf(s, symbol).ToChild? || BranchOf(s, symbol).ToAncestor?
      || BranchOf(s, symbol).ExtendCurrent?
    ensures var t := UpdateTreeSpec(s, symbol, word, location, wordRange);
      && |s.nodes| <= |t.nodes|
      && forall i :: 0 <= i < |s.nodes| ==> t.nodes[i].parent == s.nodes[i].parent && t.nodes[i].symbol == s.nodes[i].symbol
  {
  }

  /**
   * Observing again the symbol of the current node, with any word, range
   * and location, keeps the current node and the tree's shape: only that
   * node's word, range and location are overwritten.
   */
  lemma RepeatSymbolStays(s: TreeState, symbol: DocumentSymbol, word: string, location: Location, wordRange: Range)
    requires ValidTree(s.nodes, s.root) && !s.shouldIgnoreUpdate && s.root.currentNode.Some?
    requires AreSymbolsIdentical(s.nodes[s.root.currentNode.value].symbol, symbol)
    ensures var t := UpdateTreeSpec(s, Some(symbol), word, location, wordRange);
      var cur := s.root.currentNode.value;
      && t == s.(nodes := MoveTo(s.nodes, cur, cur, word, wordRange, location))
      && ValidTree(t.nodes, t.root) && SameShape(s.nodes, t.nodes)
  {
    var cur := s.root.currentNode.value;
    SecondVisitFindsCurrent(s.nodes, s.root, symbol);
    assert BranchOf(s, Some(symbol)) == ToAncestor(cur);
    MoveToValid(s.nodes, s.root, cur, word, wordRange, location);
    assert s.root.(currentNode := Some(cur)) == s.root;
  }

  /** Observing again exactly what the current node holds leaves the state as it is. */
  lemma RevisitIsNoOp(t: TreeState, symbol: DocumentSymbol, word: string, location: Location, wordRange: Range)
    requires ValidTree(t.nodes, t.root) && !t.shouldIgnoreUpdate && t.root.currentNode.Some?
    requires var c := t.root.currentNode.value;
      && AreSymbolsIdentical(t.nodes[c].symbol, symbol)
      && t.nodes[c].word == word && t.nodes[c].wordRange == wordRange && t.nodes[c].location == location
    ensures UpdateTreeSpec(t, Some(symbol), word, location, wordRange) == t
  {
    var c := t.root.currentNode.value;
    SecondVisitFindsCurrent(t.nodes, t.root, symbol);
    assert BranchOf(t, Some(symbol)) == ToAncestor(c);
    var m := AncestorMoveTarget(t, Some(symbol), word, location, wordRange);
    var r := MoveTo(t.nodes, c, c, word, wordRange, location);
    forall i | 0 <= i < |r|
      ensures r[i] == t.nodes[i]
    {
    }
    assert r == t.nodes;
  }

  /**
   * In a valid tree, a symbol identical to the current node's matches none
   * of its children and is found first on its walk up.
   */
  lemma SecondVisitFindsCurrent(nodes: seq<TreeNode>, root: TreeRoot, symbol: DocumentSymbol)
    requires ValidTree(nodes, root) && root.currentNode.Some?
    requires AreSymbolsIdentical(nodes[root.currentNode.value].symbol, symbol)
    ensures FindIfSymbolIsChildOfCurrentNode(nodes, root, symbol).None?
    ensures FindIfSymbolIsAncestorOfCurrentNode(nodes, root, symbol) == root.currentNode
  {
    var c := root.currentNode.value;
    var cs := nodes[c].children;
    forall k | 0 <= k < |cs|
      ensures !AreSymbolsIdentical(nodes[cs[k]].symbol, symbol)
    {
      assert ChildrenPointBack(nodes, c);
      assert PathToRoot(nodes, cs[k])[1] == c;
      SymbolsIdenticalIsEquivalence(nodes[c].symbol, nodes[cs[k]].symbol, symbol);
    }
  }
}
