/**
 * The extension's module state and the imperative operations on it
 * (src/extension.ts): the selection listener's pipeline, `updateTree`,
 * `updateNewStack` and its two helpers that rewrite the exposed stack in
 * place, `findSymbol`, the file-path list behind node colours, and the state
 * change of the "open node" command. Each method is proved against the
 * function that specifies it in Navigation, Stack or Classifier.
 */
module Extension {
  import opened Wrappers
  import opened Editor
  import opened Constants
  import opened Helpers
  import opened Tree
  import opened DataTypes
  import opened Classifier
  import opened Navigation
  import opened Stack

  /*
   * Observation normalisation
   */

  /**
   * The word and word range a selection change feeds to the tree: the
   * editor's word range at the cursor, or the cursor's own range when the
   * cursor is on no word; the text of that range, or the placeholder when
   * the text is empty. `textOf` stands for the document's text lookup.
   */
  function Observe(wordRangeAtCursor: Option<Range>, location: Location, textOf: Range -> string): (r: (string, Range))
    ensures wordRangeAtCursor.Some? ==> r.1 == wordRangeAtCursor.value
    ensures wordRangeAtCursor.None? ==> r.1 == location.range
    ensures r.0 != ""
    ensures r.0 == textOf(r.1) || (textOf(r.1) == "" && r.0 == EMPTY_WORD)
  {
    var wordRange := wordRangeAtCursor.GetOr(location.range);
    var text := textOf(wordRange);
    (if text == "" then EMPTY_WORD else text, wordRange)
  }

  /** On a bare cursor, the observed range is the empty range at the cursor and contains it. */
  lemma ObserveAtBareCursor(document: Uri, position: Position, textOf: Range -> string)
    ensures var r := Observe(None, CursorLocation(document, position), textOf);
      r.1.start == position && r.1.end == position && Contains(r.1, position)
  {
  }

  /** The editor facts the listener reads, present only when an editor is active. */
  datatype ActiveEditor = ActiveEditor(document: Uri, active: Position, wordRangeAtCursor: Option<Range>)

  /*
   * The module state
   */

  /** The module-level variables of the extension that the navigation core reads and writes. */
  class Session {
    var nodes: seq<TreeNode>
    var treeRoot: TreeRoot
    var shouldIgnoreUpdate: bool
    var pathsArray: seq<string>
    var newStack: seq<StackElement>
    var symbolBreadcrumbs: seq<DocumentSymbol>

    /**
     * The tree root's references point into the arena, and there is a
     * current node exactly when there is a tree. That the arena is moreover
     * a live navigation tree (`ValidTree`) is proved of the functions the
     * methods are proved equal to: `UpdateTreeKeepsValidity`, `OpenNodeValid`.
     */
    ghost predicate Valid()
      reads this
    {
      Addressed(nodes, treeRoot)
    }

    /** The part of the state `updateTree` reads and writes. */
    function State(): TreeState
      reads this
    {
      TreeState(nodes, treeRoot, shouldIgnoreUpdate, pathsArray)
    }

    /** The initial module state: no tree, no flag, no paths, empty stack and breadcrumb. */
    constructor()
      ensures Valid()
      ensures nodes == [] && treeRoot == EmptyRoot && !shouldIgnoreUpdate
      ensures pathsArray == [] && newStack == [] && symbolBreadcrumbs == []
    {
      nodes := [];
      treeRoot := EmptyRoot;
      shouldIgnoreUpdate := false;
      pathsArray := [];
      newStack := [];
      symbolBreadcrumbs := [];
    }

    /**
     * `pushFilePath`: the scan for an existing entry returns only from its
     * callback, so the path is always appended and its new index returned.
     */
    method PushFilePath(location: Location) returns (index: nat)
      modifies this`pathsArray
      ensures pathsArray == old(pathsArray) + [location.uri.fsPath]
      ensures index == |old(pathsArray)| && pathsArray[index] == location.uri.fsPath
    {
      var filePath := location.uri.fsPath;
      pathsArray := pathsArray + [filePath];
      index := |pathsArray| - 1;
    }

    /** `getFileColor`: the palette entry at the pushed index, cycling. */
    method GetFileColor(location: Location) returns (color: string)
      modifies this`pathsArray
      ensures pathsArray == old(pathsArray) + [location.uri.fsPath]
      ensures color == PaletteColor(|old(pathsArray)|)
    {
      var index := PushFilePath(location);
      color := ALLOWED_COLORS[index % |ALLOWED_COLORS|];
    }

    /** `updateTree`: one observation applied to the tree, as `UpdateTreeSpec` describes. */
    method UpdateTree(symbol: Option<DocumentSymbol>, word: string, location: Location, wordRange: Range)
      requires Valid()
      modifies this`nodes, this`treeRoot, this`shouldIgnoreUpdate, this`pathsArray
      ensures State() == UpdateTreeSpec(old(State()), symbol, word, location, wordRange)
      ensures Valid()
    {
      ghost var s := State();
      UpdateTreeKeepsAddressed(s, symbol, word, location, wordRange);
      if shouldIgnoreUpdate {
        shouldIgnoreUpdate := false;
        return;
      }

      if symbol.None? {
        nodes := [];
        treeRoot := EmptyRoot;
        return;
      }

      if treeRoot.node.None? {
        PlantRoot(symbol.value, word, wordRange, location);
        pathsArray := [];
        return;
      }

      var foundChild := FindIfSymbolIsChildOfCurrentNode(nodes, treeRoot, symbol.value);
      if foundChild.Some? {
        assert BranchOf(s, symbol) == ToChild(foundChild.value);
        MoveCurrentTo(foundChild.value, word, wordRange, location);
        return;
      }

      var foundAncestor := FindIfSymbolIsAncestorOfCurrentNode(nodes, treeRoot, symbol.value);
      if foundAncestor.Some? {
        assert BranchOf(s, symbol) == ToAncestor(foundAncestor.value);
        MoveCurrentTo(foundAncestor.value, word, wordRange, location);
        return;
      }

      if symbol.value.name == nodes[treeRoot.currentNode.value].word {
        assert BranchOf(s, symbol) == ExtendCurrent;
        AddChild(symbol.value, word, wordRange, location);
        return;
      }

      assert BranchOf(s, symbol) == FreshRoot;
      PlantRoot(symbol.value, word, wordRange, location);
    }

    /**
     * The block `updateTree` runs to start a tree: the paths list is
     * emptied, then the new root is coloured by `getFileColor` and made current.
     */
    method PlantRoot(symbol: DocumentSymbol, word: string, wordRange: Range, location: Location)
      modifies this`nodes, this`treeRoot, this`pathsArray
      ensures nodes == SingleRoot(symbol, word, wordRange, location)
      ensures treeRoot == TreeRoot(Some(0), Some(0))
      ensures pathsArray == [location.uri.fsPath]
    {
      pathsArray := [];
      var color := GetFileColor(location);
      nodes := [TreeNode(symbol, word, wordRange, location, color, true, [], None)];
      treeRoot := TreeRoot(Some(0), Some(0));
    }

    /**
     * The block `updateTree` runs for a found child or ancestor: the old
     * current node's flag is cleared, and the found node becomes current and
     * takes the observation's word, word range and location.
     */
    method MoveCurrentTo(target: nat, word: string, wordRange: Range, location: Location)
      requires treeRoot.currentNode.Some? && treeRoot.currentNode.value < |nodes| && target < |nodes|
      modifies this`nodes, this`treeRoot
      ensures nodes == MoveTo(old(nodes), old(treeRoot.currentNode.value), target, word, wordRange, location)
      ensures treeRoot == old(treeRoot).(currentNode := Some(target))
    {
      var cur := treeRoot.currentNode.value;
      nodes := nodes[cur := nodes[cur].(current := false)];
      treeRoot := treeRoot.(currentNode := Some(target));
      nodes := nodes[target := nodes[target].(word := word, wordRange := wordRange, location := location, current := true)];
    }

    /**
     * The block `updateTree` runs to extend the tree: the old current node's
     * flag is cleared, and a new node coloured by `getFileColor` is pushed
     * onto its children and made current.
     */
    method AddChild(symbol: DocumentSymbol, word: string, wordRange: Range, location: Location)
      requires treeRoot.currentNode.Some? && treeRoot.currentNode.value < |nodes|
      modifies this`nodes, this`treeRoot, this`pathsArray
      ensures nodes == Extend(old(nodes), old(treeRoot.currentNode.value), symbol, word, wordRange, location,
                              PaletteColor(|old(pathsArray)|))
      ensures treeRoot == old(treeRoot).(currentNode := Some(|old(nodes)|))
      ensures pathsArray == old(pathsArray) + [location.uri.fsPath]
    {
      var cur := treeRoot.currentNode.value;
      nodes := nodes[cur := nodes[cur].(current := false)];
      var color := GetFileColor(location);
      var newIndex := |nodes|;
      nodes := nodes[cur := nodes[cur].(children := nodes[cur].children + [newIndex])]
        + [TreeNode(symbol, word, wordRange, location, color, true, [], Some(cur))];
      treeRoot := treeRoot.(currentNode := Some(newIndex));
    }

    /**
     * `findSymbol`: append to the breadcrumb the first symbol containing the
     * position, then descend into its children.
     */
    method FindSymbol(symbols: seq<DocumentSymbol>, position: Position)
      modifies this`symbolBreadcrumbs
      ensures symbolBreadcrumbs == old(symbolBreadcrumbs) + Breadcrumb(symbols, position)
      decreases symbols
    {
      for i := 0 to |symbols|
        invariant forall j :: 0 <= j < i ==> !Contains(symbols[j].range, position)
        invariant symbolBreadcrumbs == old(symbolBreadcrumbs)
      {
        var symbol := symbols[i];
        if Contains(symbol.range, position) {
          symbolBreadcrumbs := symbolBreadcrumbs + [symbol];
          if |symbol.children| > 0 {
            FindSymbol(symbol.children, position);
          }
          assert FirstContaining(symbols, position) == Some(i);
          break;
        }
      }
    }

    /**
     * `checkAndUpdateNewStackContainsPartialStack`: when the exposed stack
     * contains the candidate as a prefix, refresh it in place and report it;
     * otherwise leave it alone.
     */
    method CheckAndUpdateNewStackContainsPartialStack(partialStack: seq<StackElement>) returns (contained: bool)
      requires |partialStack| > 0
      modifies this`newStack
      ensures contained == ContainsPrefix(old(newStack), partialStack)
      ensures newStack == if contained then Refreshed(old(newStack), partialStack) else old(newStack)
    {
      if |newStack| == 0 {
        return false;
      }
      if |partialStack| > |newStack| {
        return false;
      }

      var index := 0;
      for i := 0 to |partialStack|
        invariant i > 0 ==> index == i - 1
        invariant forall j :: 0 <= j < i ==> AreSymbolsIdentical(newStack[j].symbol, partialStack[j].symbol)
      {
        index := i;
        if !AreSymbolsIdentical(newStack[i].symbol, partialStack[i].symbol) {
          return false;
        }
      }

      ghost var before := newStack;
      for i := 0 to |newStack|
        invariant |newStack| == |before|
        invariant forall j :: 0 <= j < i ==> newStack[j] == Refreshed(before, partialStack)[j]
        invariant forall j :: i <= j < |newStack| ==> newStack[j] == before[j]
      {
        if i == index {
          newStack := newStack[i := newStack[i].(isCurrent := true, wordRange := partialStack[i].wordRange,
                                                word := partialStack[i].word, location := partialStack[i].location)];
        } else {
          newStack := newStack[i := newStack[i].(isCurrent := false)];
        }
      }
      assert newStack == Refreshed(before, partialStack);
      return true;
    }

    /**
     * `colorNewStack`: a map from file path to colour is filled in order of
     * first appearance, the palette cycling, and each row takes its file's colour.
     */
    method ColorNewStack()
      modifies this`newStack
      ensures newStack == Colored(old(newStack))
    {
      ghost var before := newStack;
      ghost var paths := Paths(before);
      var colorIndex := 0;
      var fileColorMap: map<string, string> := map[];
      for i := 0 to |newStack|
        invariant |newStack| == |before|
        invariant forall j :: 0 <= j < |newStack| ==> newStack[j] == RowAfter(before, paths, i, j)
        invariant ColorMapFor(paths, i, fileColorMap, colorIndex)
      {
        var location := newStack[i].location;
        var text := location.uri.fsPath;
        assert text == paths[i];
        ColorMapStep(paths, i, fileColorMap, colorIndex);
        if text !in fileColorMap {
          fileColorMap := fileColorMap[text := ALLOWED_COLORS[colorIndex % |ALLOWED_COLORS|]];
          colorIndex := colorIndex + 1;
        }
        assert ColorMapFor(paths, i + 1, fileColorMap, colorIndex) && fileColorMap[text] == ColorOf(paths, paths[i]);
        ghost var rows := newStack;
        newStack := newStack[i := newStack[i].(color := fileColorMap[text])];
        RowAfterStep(before, paths, i, rows, newStack);
      }
      ColoredRows(before, paths);
    }

    /**
     * `updateNewStack`: no stack without a tree and a current node;
     * otherwise the projection of the tree, kept as a refresh of the exposed
     * stack when that contains it, else installed and recoloured.
     */
    method UpdateNewStack()
      requires RootInArena(nodes, treeRoot)
      modifies this`newStack
      ensures newStack == NewStackAfter(old(newStack), nodes, treeRoot)
    {
      if treeRoot.node.None? {
        newStack := [];
        return;
      }
      if treeRoot.currentNode.None? {
        newStack := [];
        return;
      }

      var partialStack := GetPartialStackFromTree(nodes, treeRoot);

      var contained := CheckAndUpdateNewStackContainsPartialStack(partialStack);
      if contained {
        return;
      }

      newStack := partialStack;
      ColorNewStack();
    }

    /**
     * The "open node" command: `node` is the clicked tree node, absent when
     * the command carries none. The old current node's flag is cleared and
     * the clicked node becomes current; then the stack is rebuilt when the
     * editor already shows that node's word, and otherwise the next
     * selection change is marked to be ignored.
     */
    method OpenNode(node: Option<nat>, alreadyThere: bool)
      requires Valid() && (node.Some? ==> node.value < |nodes| && treeRoot.currentNode.Some?)
      modifies this`nodes, this`treeRoot, this`shouldIgnoreUpdate, this`newStack
      ensures Valid()
      ensures node.None? ==> unchanged(this)
      ensures node.Some? ==>
        && treeRoot.currentNode == Some(node.value)
        && (nodes, treeRoot) == OpenNodeSpec(old(nodes), old(treeRoot), node.value)
      ensures node.Some? && alreadyThere ==>
        shouldIgnoreUpdate == old(shouldIgnoreUpdate) && newStack == NewStackAfter(old(newStack), nodes, treeRoot)
      ensures node.Some? && !alreadyThere ==> shouldIgnoreUpdate && newStack == old(newStack)
    {
      if node.Some? {
        var target := node.value;
        var cur := treeRoot.currentNode.value;
        nodes := nodes[cur := nodes[cur].(current := false)];
        treeRoot := treeRoot.(currentNode := Some(target));
        nodes := nodes[target := nodes[target].(current := true)];

        if alreadyThere {
          UpdateNewStack();
          return;
        }

        shouldIgnoreUpdate := true;
      }
    }

    /**
     * The selection-change listener: with an active editor, rebuild the
     * breadcrumb for the cursor, pick the relevant symbol, normalise the
     * observation, update the tree and then the stack. Without one, nothing
     * changes. `outlineItems` is the document's symbol tree and `textOf` the
     * document's text lookup.
     */
    method OnSelectionChanged(editor: Option<ActiveEditor>, outlineItems: seq<DocumentSymbol>, textOf: Range -> string)
      requires Valid()
      modifies this
      ensures Valid()
      ensures editor.None? ==> unchanged(this)
      ensures editor.Some? ==>
        var e := editor.value;
        var location := CursorLocation(e.document, e.active);
        var observed := Observe(e.wordRangeAtCursor, location, textOf);
        && symbolBreadcrumbs == Breadcrumb(outlineItems, e.active)
        && State() == UpdateTreeSpec(old(State()), RelevantSymbol(symbolBreadcrumbs), observed.0, location, observed.1)
        && newStack == NewStackAfter(old(newStack), nodes, treeRoot)
    {
      if editor.Some? {
        var e := editor.value;
        var position := e.active;
        symbolBreadcrumbs := [];
        FindSymbol(outlineItems, position);

        var location := CursorLocation(e.document, position);
        var symbol := GetRelevantSymbol(symbolBreadcrumbs);
        var observed := Observe(e.wordRangeAtCursor, location, textOf);

        UpdateTree(symbol, observed.0, location, observed.1);
        UpdateNewStack();
      }
    }
  }

  /*
   * The colouring loop's map
   */

  /** Row `j` of the stack after the colouring loop has coloured its first `i` rows. */
  ghost function RowAfter(before: seq<StackElement>, paths: seq<string>, i: nat, j: nat): StackElement
    requires j < |before| && paths == Paths(before)
  {
    if j < i then before[j].(color := ColorOf(paths, paths[j])) else before[j]
  }

  /** Colouring row `i` with its final colour turns the rows after `i` rows into the rows after `i + 1`. */
  lemma RowAfterStep(before: seq<StackElement>, paths: seq<string>, i: nat,
                     rows: seq<StackElement>, rows': seq<StackElement>)
    requires i < |before| && paths == Paths(before) && |rows| == |before|
    requires forall j :: 0 <= j < |rows| ==> rows[j] == RowAfter(before, paths, i, j)
    requires rows' == rows[i := rows[i].(color := ColorOf(paths, paths[i]))]
    ensures forall j :: 0 <= j < |rows'| ==> rows'[j] == RowAfter(before, paths, i + 1, j)
  {
  }

  /** Once every row is coloured, the rows are those of `Colored`. */
  lemma ColoredRows(before: seq<StackElement>, paths: seq<string>)
    requires paths == Paths(before)
    ensures Colored(before) == seq(|before|, j requires 0 <= j < |before| => RowAfter(before, paths, |before|, j))
  {
  }

  /**
   * What `colorNewStack`'s map holds after the first `i` rows: exactly the
   * paths seen so far, each mapped to its final colour, and the counter
   * equal to the number of distinct paths seen so far.
   */
  ghost predicate ColorMapFor(paths: seq<string>, i: nat, m: map<string, string>, colorIndex: nat) {
    && i <= |paths|
    && colorIndex == |Distinct(paths[..i])|
    && (forall x :: x in m <==> x in paths[..i])
    && (forall x :: x in m ==> x in paths && m[x] == ColorOf(paths, x))
  }

  /**
   * One step of the colouring loop keeps the map's meaning: a path already
   * seen keeps its colour, and a new path gets the next palette entry,
   * which is its final colour.
   */
  lemma ColorMapStep(paths: seq<string>, i: nat, m: map<string, string>, colorIndex: nat)
    requires i < |paths| && ColorMapFor(paths, i, m, colorIndex)
    ensures var x := paths[i];
      var m' := if x in m then m else m[x := ALLOWED_COLORS[colorIndex % |ALLOWED_COLORS|]];
      && ColorMapFor(paths, i + 1, m', if x in m then colorIndex else colorIndex + 1)
      && m'[x] == ColorOf(paths, x)
  {
    if paths[i] in m {
      ColorMapSeenPath(paths, i, m, colorIndex);
    } else {
      ColorMapNewPath(paths, i, m, colorIndex);
    }
  }

  /** A path seen before leaves the map and the counter as they are. */
  lemma ColorMapSeenPath(paths: seq<string>, i: nat, m: map<string, string>, colorIndex: nat)
    requires i < |paths| && ColorMapFor(paths, i, m, colorIndex) && paths[i] in m
    ensures ColorMapFor(paths, i + 1, m, colorIndex)
  {
    var x := paths[i];
    var seen := paths[..i + 1];
    assert seen == paths[..i] + [x];
    DistinctStep(paths, i);
    forall y
      ensures y in m <==> y in seen
    {
      assert y in seen <==> y in paths[..i] || y == x;
    }
  }

  /** A new path is mapped to the palette entry at the counter, which is its final colour. */
  lemma ColorMapNewPath(paths: seq<string>, i: nat, m: map<string, string>, colorIndex: nat)
    requires i < |paths| && ColorMapFor(paths, i, m, colorIndex) && paths[i] !in m
    ensures var m' := m[paths[i] := ALLOWED_COLORS[colorIndex % |ALLOWED_COLORS|]];
      ColorMapFor(paths, i + 1, m', colorIndex + 1) && m'[paths[i]] == ColorOf(paths, paths[i])
  {
    var x := paths[i];
    var seen := paths[..i + 1];
    assert seen == paths[..i] + [x];
    var m' := m[x := ALLOWED_COLORS[colorIndex % |ALLOWED_COLORS|]];
    NewPathRank(paths, i);
    assert m'[x] == ColorOf(paths, x);
    DistinctStep(paths, i);
    assert colorIndex + 1 == |Distinct(seen)|;
    forall y
      ensures y in m' <==> y in seen
    {
      assert y in seen <==> y in paths[..i] || y == x;
    }
    forall y | y in m'
      ensures y in paths && m'[y] == ColorOf(paths, y)
    {
      if y != x {
        assert y in m;
      }
    }
  }

  /** The first occurrence of a path is ranked after every distinct path before it. */
  lemma NewPathRank(paths: seq<string>, i: nat)
    requires i < |paths| && paths[i] !in paths[..i]
    ensures IndexOf(Distinct(paths), paths[i]) == |Distinct(paths[..i])|
  {
    var x := paths[i];
    DistinctStep(paths, i);
    var d0 := Distinct(paths[..i]);
    var d1 := Distinct(paths[..i + 1]);
    assert d1 == d0 + [x] && x !in d0;
    DistinctPrefix(paths, i + 1);
    IndexOfPrefix(d1, Distinct(paths), x);
  }

  /*
   * What one selection change achieves
   */

  /**
   * After a selection change that is not ignored and finds a symbol, the
   * stack has exactly one current row; its symbol is identical to the
   * observed one and it carries the observed word, range and location.
   */
  lemma SelectionLandsOnSymbol(s: TreeState, stack: seq<StackElement>, symbol: DocumentSymbol,
                               word: string, location: Location, wordRange: Range)
    requires ValidTree(s.nodes, s.root) && !s.shouldIgnoreUpdate
    ensures var t := UpdateTreeSpec(s, Some(symbol), word, location, wordRange);
      ValidTree(t.nodes, t.root) &&
      var r := NewStackAfter(stack, t.nodes, t.root);
      exists at :: 0 <= at < |r| && (forall i :: 0 <= i < |r| ==> (r[i].isCurrent <==> i == at))
        && AreSymbolsIdentical(r[at].symbol, symbol)
        && r[at].word == word && r[at].wordRange == wordRange && r[at].location == location
  {
    var t := UpdateTreeSpec(s, Some(symbol), word, location, wordRange);
    UpdateTreeKeepsValidity(s, Some(symbol), word, location, wordRange);
    UpdateTreeLandsOnObservation(s, symbol, word, location, wordRange);
    NewStackTracksCurrent(stack, t.nodes, t.root);
    var cur := t.root.currentNode.value;
    var r := NewStackAfter(stack, t.nodes, t.root);
    var at := |PathToRoot(t.nodes, cur)| - 1;
    SymbolsIdenticalIsEquivalence(r[at].symbol, t.nodes[cur].symbol, symbol);
  }

  /**
   * A selection change with no symbol under the cursor, and not ignored,
   * leaves no tree and an empty stack.
   */
  lemma SelectionOutsideSymbolsClears(s: TreeState, stack: seq<StackElement>, word: string, location: Location, wordRange: Range)
    requires ValidTree(s.nodes, s.root) && !s.shouldIgnoreUpdate
    ensures var t := UpdateTreeSpec(s, None, word, location, wordRange);
      t.nodes == [] && t.root == EmptyRoot && NewStackAfter(stack, t.nodes, t.root) == []
  {
    UpdateTreeIgnoredOrReset(s, None, word, location, wordRange);
  }

  /**
   * A stack that is a root-down walk of a valid tree is still a walk of the
   * tree after a selection change: its rows keep referencing nodes of the
   * arena, so opening a row's node always opens a node of the tree.
   */
  lemma SelectionKeepsStackOnTree(s: TreeState, stack: seq<StackElement>, symbol: Option<DocumentSymbol>,
                                  word: string, location: Location, wordRange: Range)
    requires ValidTree(s.nodes, s.root) && OnTree(stack, s.nodes)
    ensures var t := UpdateTreeSpec(s, symbol, word, location, wordRange);
      ValidTree(t.nodes, t.root) && OnTree(NewStackAfter(stack, t.nodes, t.root), t.nodes)
  {
    var t := UpdateTreeSpec(s, symbol, word, location, wordRange);
    UpdateTreeKeepsValidity(s, symbol, word, location, wordRange);
    var b := BranchOf(s, symbol);
    if b.Reset? {
    } else if b.NewRoot? {
      assert stack == [];
      NewStackOnTree(stack, t.nodes, t.root);
    } else if b.FreshRoot? {
      FreshRootDropsOldStack(s, stack, symbol.value, word, location, wordRange);
      ColoredProjectionOnTree(t.nodes, t.root);
    } else {
      UpdateTreeKeepsOldSlots(s, symbol, word, location, wordRange);
      OnTreeFrame(stack, s.nodes, t.nodes);
      NewStackOnTree(stack, t.nodes, t.root);
    }
  }

  /**
   * A fresh tree never keeps the old stack: the new root's symbol matched
   * nothing on the walk from the current node to the root, and the old
   * stack's first row holds the old root's symbol.
   */
  lemma FreshRootDropsOldStack(s: TreeState, stack: seq<StackElement>, symbol: DocumentSymbol,
                               word: string, location: Location, wordRange: Range)
    requires ValidTree(s.nodes, s.root) && OnTree(stack, s.nodes) && BranchOf(s, Some(symbol)) == FreshRoot
    ensures var t := UpdateTreeSpec(s, Some(symbol), word, location, wordRange);
      && ValidTree(t.nodes, t.root) && t.root.currentNode.Some?
      && NewStackAfter(stack, t.nodes, t.root) == Colored(Projection(t.nodes, t.root))
  {
    var t := UpdateTreeSpec(s, Some(symbol), word, location, wordRange);
    SingleRootValid(symbol, word, wordRange, location);
    assert PathToRoot(t.nodes, 0) == [0];
    var candidate := Projection(t.nodes, t.root);
    assert candidate[0].symbol == symbol;
    FreshRootMissesOldRoot(s, symbol);
    assert |stack| > 0 ==> !AreSymbolsIdentical(stack[0].symbol, candidate[0].symbol);
  }

  /**
   * Opening a node keeps a walk of the tree a walk of it, whether the stack
   * is then reconciled or left as it is.
   */
  lemma OpenNodeKeepsStackOnTree(stack: seq<StackElement>, nodes: seq<TreeNode>, root: TreeRoot, target: nat)
    requires ValidTree(nodes, root) && root.currentNode.Some? && target < |nodes| && OnTree(stack, nodes)
    ensures var (nodes', root') := OpenNodeSpec(nodes, root, target);
      && ValidTree(nodes', root') && OnTree(stack, nodes')
      && OnTree(NewStackAfter(stack, nodes', root'), nodes')
  {
    var (nodes', root') := OpenNodeSpec(nodes, root, target);
    OpenNodeValid(nodes, root, target);
    OnTreeFrame(stack, nodes, nodes');
    NewStackOnTree(stack, nodes', root');
  }

  /**
   * Moving the cursor within the current symbol observes that symbol again,
   * with a new word, range or location. The tree keeps its root and shape,
   * and the stack is refreshed in place: it keeps its length, symbols,
   * colours and node references, and only the current row takes the new
   * word, range and location.
   */
  lemma RepeatSymbolRefreshesInPlace(s: TreeState, stack0: seq<StackElement>, symbol: DocumentSymbol,
                                     word: string, location: Location, wordRange: Range)
    requires ValidTree(s.nodes, s.root) && !s.shouldIgnoreUpdate && s.root.currentNode.Some?
    requires AreSymbolsIdentical(s.nodes[s.root.currentNode.value].symbol, symbol)
    ensures var t := UpdateTreeSpec(s, Some(symbol), word, location, wordRange);
      var stack := NewStackAfter(stack0, s.nodes, s.root);
      && t.root == s.root && SameShape(s.nodes, t.nodes) && ValidTree(t.nodes, t.root)
      && |Projection(t.nodes, t.root)| > 0
      && ContainsPrefix(stack, Projection(t.nodes, t.root))
      && NewStackAfter(stack, t.nodes, t.root) == Refreshed(stack, Projection(t.nodes, t.root))
      && var at := |PathToRoot(s.nodes, s.root.currentNode.value)| - 1;
         var r := NewStackAfter(stack, t.nodes, t.root);
         && at < |stack| && |r| == |stack|
         && (forall i :: 0 <= i < |r| && i != at ==> r[i] == stack[i])
         && r[at] == stack[at].(word := word, wordRange := wordRange, location := location)
  {
    var cur := s.root.currentNode.value;
    var t := UpdateTreeSpec(s, Some(symbol), word, location, wordRange);
    RepeatSymbolStays(s, symbol, word, location, wordRange);
    var stack := NewStackAfter(stack0, s.nodes, s.root);
    NewStackContainsProjection(stack0, s.nodes, s.root);
    NewStackTracksCurrent(stack0, s.nodes, s.root);
    assert s.root == TreeRoot(Some(0), Some(cur));
    ProjectionFollowsLinks(s.nodes, t.nodes, cur);
    ProjectionShape(t.nodes, t.root);
    var p := Projection(s.nodes, s.root);
    var p' := Projection(t.nodes, t.root);
    forall i | 0 <= i < |p'|
      ensures AreSymbolsIdentical(stack[i].symbol, p'[i].symbol)
    {
      assert p'[i].symbol == p[i].symbol;
    }
    RefreshAtCurrentRow(stack, p');
    assert p'[|p'| - 1] == ElementOf(t.nodes, cur);
  }

  /**
   * Returning to a caller keeps the callee on the stack. Starting from no
   * tree: the cursor rests in `foo` on the word `bar`; it then moves into
   * `bar`, which extends the tree; then it moves back into `foo`, an
   * ancestor. The tree's current node goes back to the root, but the old
   * stack still contains the new one-row projection, so it is refreshed in
   * place: the rows below the current one stay, and the stack is
   * `[foo (current), bar]`.
   */
  lemma ReturnToCallerKeepsLongerStack(foo: DocumentSymbol, bar: DocumentSymbol,
                                       location1: Location, wordRange1: Range,
                                       word2: string, location2: Location, wordRange2: Range,
                                       word3: string, location3: Location, wordRange3: Range)
    requires foo.name != bar.name
    ensures var s1 := UpdateTreeSpec(TreeState([], EmptyRoot, false, []), Some(foo), bar.name, location1, wordRange1);
      ValidTree(s1.nodes, s1.root) &&
      var stack1 := NewStackAfter([], s1.nodes, s1.root);
      var s2 := UpdateTreeSpec(s1, Some(bar), word2, location2, wordRange2);
      ValidTree(s2.nodes, s2.root) &&
      var stack2 := NewStackAfter(stack1, s2.nodes, s2.root);
      var s3 := UpdateTreeSpec(s2, Some(foo), word3, location3, wordRange3);
      ValidTree(s3.nodes, s3.root) &&
      var stack3 := NewStackAfter(stack2, s3.nodes, s3.root);
      && |stack2| == 2 && |s3.nodes| == 2 && s3.root.currentNode == Some(0)
      && stack3 == [stack2[0].(isCurrent := true, word := word3, wordRange := wordRange3, location := location3),
                    stack2[1].(isCurrent := false)]
      && stack3[0].symbol == foo && stack3[1].symbol == bar && stack3[1].word == word2
  {
    ScenarioStart(foo, bar.name, location1, wordRange1);
    var s1 := UpdateTreeSpec(TreeState([], EmptyRoot, false, []), Some(foo), bar.name, location1, wordRange1);
    var stack1 := NewStackAfter([], s1.nodes, s1.root);
    ScenarioCall(s1, stack1, foo, bar, location1, wordRange1, word2, location2, wordRange2);
    var s2 := UpdateTreeSpec(s1, Some(bar), word2, location2, wordRange2);
    var stack2 := NewStackAfter(stack1, s2.nodes, s2.root);
    ScenarioReturn(s2, stack2, foo, bar, word3, location3, wordRange3);
  }

  /** First step of the scenario: a single root for `foo`, and a one-row stack. */
  lemma ScenarioStart(foo: DocumentSymbol, word: string, location: Location, wordRange: Range)
    ensures var s1 := UpdateTreeSpec(TreeState([], EmptyRoot, false, []), Some(foo), word, location, wordRange);
      && s1 == TreeState(SingleRoot(foo, word, wordRange, location), TreeRoot(Some(0), Some(0)), false, [])
      && ValidTree(s1.nodes, s1.root)
      && var stack1 := NewStackAfter([], s1.nodes, s1.root);
         |stack1| == 1 && stack1[0].symbol == foo
  {
    var s0 := TreeState([], EmptyRoot, false, []);
    UpdateTreeStartsTree(s0, foo, word, location, wordRange);
    var s1 := UpdateTreeSpec(s0, Some(foo), word, location, wordRange);
    SingleRootValid(foo, word, wordRange, location);
    assert PathToRoot(s1.nodes, 0) == [0];
    assert Projection(s1.nodes, s1.root) == [ElementOf(s1.nodes, 0)];
  }

  /** Second step: `bar`, named like the root's word, becomes a current child of the root; the stack gets two rows. */
  lemma ScenarioCall(s1: TreeState, stack1: seq<StackElement>, foo: DocumentSymbol, bar: DocumentSymbol,
                     location1: Location, wordRange1: Range, word: string, location: Location, wordRange: Range)
    requires foo.name != bar.name && |stack1| == 1
    requires s1 == TreeState(SingleRoot(foo, bar.name, wordRange1, location1), TreeRoot(Some(0), Some(0)), false, [])
    ensures var s2 := UpdateTreeSpec(s1, Some(bar), word, location, wordRange);
      && |s2.nodes| == 2 && s2.root == TreeRoot(Some(0), Some(1))
      && s2.nodes[0].symbol == foo && s2.nodes[1].parent == Some(0) && s2.nodes[1].children == []
      && ValidTree(s2.nodes, s2.root)
      && var stack2 := NewStackAfter(stack1, s2.nodes, s2.root);
         && |stack2| == 2 && stack2[0].symbol == foo && stack2[1].symbol == bar && stack2[1].word == word
  {
    ScenarioCallTree(s1, foo, bar, location1, wordRange1, word, location, wordRange);
    var s2 := UpdateTreeSpec(s1, Some(bar), word, location, wordRange);
    assert Projection(s2.nodes, s2.root) == [ElementOf(s2.nodes, 0), ElementOf(s2.nodes, 1)];
  }

  /** The tree half of the second step: one child appended under the root, valid, with a two-node walk. */
  lemma ScenarioCallTree(s1: TreeState, foo: DocumentSymbol, bar: DocumentSymbol,
                         location1: Location, wordRange1: Range, word: string, location: Location, wordRange: Range)
    requires foo.name != bar.name
    requires s1 == TreeState(SingleRoot(foo, bar.name, wordRange1, location1), TreeRoot(Some(0), Some(0)), false, [])
    ensures var s2 := UpdateTreeSpec(s1, Some(bar), word, location, wordRange);
      && |s2.nodes| == 2 && s2.root == TreeRoot(Some(0), Some(1))
      && s2.nodes[0].symbol == foo && s2.nodes[1] == NewNode(bar, word, wordRange, location, PaletteColor(0), Some(0))
      && ValidTree(s2.nodes, s2.root) && PathToRoot(s2.nodes, 1) == [1, 0]
  {
    ScenarioCallShape(s1, foo, bar, location1, wordRange1, word, location, wordRange);
    UpdateTreeKeepsValidity(s1, Some(bar), word, location, wordRange);
  }

  /** The shape of the tree after the second step, without its validity. */
  lemma ScenarioCallShape(s1: TreeState, foo: DocumentSymbol, bar: DocumentSymbol,
                          location1: Location, wordRange1: Range, word: string, location: Location, wordRange: Range)
    requires foo.name != bar.name
    requires s1 == TreeState(SingleRoot(foo, bar.name, wordRange1, location1), TreeRoot(Some(0), Some(0)), false, [])
    ensures ValidTree(s1.nodes, s1.root)
    ensures var s2 := UpdateTreeSpec(s1, Some(bar), word, location, wordRange);
      && |s2.nodes| == 2 && s2.root == TreeRoot(Some(0), Some(1))
      && s2.nodes[0].symbol == foo && s2.nodes[1] == NewNode(bar, word, wordRange, location, PaletteColor(0), Some(0))
      && PathToRoot(s2.nodes, 1) == [1, 0]
  {
    assert !AreSymbolsIdentical(foo, bar);
    assert PathToRoot(s1.nodes, 0) == [0];
    UpdateTreeExtends(s1, bar, word, location, wordRange);
    var s2 := UpdateTreeSpec(s1, Some(bar), word, location, wordRange);
    assert PathToRoot(s2.nodes, 1) == [1, 0];
  }

  /** Third step: `foo` is found as the ancestor of `bar`; the two-row stack is refreshed in place. */
  lemma ScenarioReturn(s2: TreeState, stack2: seq<StackElement>, foo: DocumentSymbol, bar: DocumentSymbol,
                       word: string, location: Location, wordRange: Range)
    requires foo.name != bar.name && !s2.shouldIgnoreUpdate
    requires |s2.nodes| == 2 && s2.root == TreeRoot(Some(0), Some(1))
    requires s2.nodes[0].symbol == foo && s2.nodes[1].parent == Some(0) && s2.nodes[1].children == []
    requires ValidTree(s2.nodes, s2.root)
    requires |stack2| == 2 && stack2[0].symbol == foo
    ensures var s3 := UpdateTreeSpec(s2, Some(foo), word, location, wordRange);
      && |s3.nodes| == 2 && s3.root.currentNode == Some(0) && ValidTree(s3.nodes, s3.root)
      && NewStackAfter(stack2, s3.nodes, s3.root) ==
           [stack2[0].(isCurrent := true, word := word, wordRange := wordRange, location := location),
            stack2[1].(isCurrent := false)]
  {
    SymbolsIdenticalIsEquivalence(foo, foo, foo);
    assert PathToRoot(s2.nodes, 1) == [1, 0];
    assert FirstIdenticalAt(s2.nodes, [1, 0], foo) == Some(1);
    UpdateTreeMovesToAncestor(s2, foo, word, location, wordRange);
    UpdateTreeKeepsValidity(s2, Some(foo), word, location, wordRange);
    var s3 := UpdateTreeSpec(s2, Some(foo), word, location, wordRange);
    assert PathToRoot(s3.nodes, 0) == [0];
    var candidate := Projection(s3.nodes, s3.root);
    assert candidate == [ElementOf(s3.nodes, 0)];
    assert ContainsPrefix(stack2, candidate);
  }
}
