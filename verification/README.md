# Code Navigation Stack — a verified model of the navigation core

The Code Navigation Stack editor extension follows the developer's cursor. On each
selection change, it finds the chain of document symbols that encloses the cursor.
It then picks the one "relevant" symbol, a function, method, property or
constructor, with a special case for anonymous callbacks. That symbol and the
word under the cursor go to a navigation tree. The tree remembers which symbol
was visited from which:

- a symbol that is a child of the current node makes that child current;
- a symbol found on the way back to the root makes that ancestor current;
- a symbol named like the word the cursor was on when leaving the current node
  becomes a new child, because the developer followed a call;
- anything else starts a new tree.

The path from the root to the current node is exposed as a *stack*. When the old
stack still contains the new path, it is updated in place rather than replaced.
The in-place update keeps the rows below the new current row. So returning from
a callee to its caller leaves the callee on the stack, as a row that is no longer
current. Each row is coloured by its file, from a seven-colour palette.

This project models that core in Dafny:

- `Editor` holds the editor's value types: positions, ranges, locations and
  document symbols.
- `Constants` holds the placeholder word, the palette and the functional symbol
  kinds.
- `Helpers` holds symbol identity and the deep equality of plain values.
- `Tree` holds the node arena and the three tree searches.
- `DataTypes` holds the stack row.
- `Classifier` holds the breadcrumb and the choice of the relevant symbol.
- `Navigation` specifies `updateTree` and the open-node state change as
  functions, and proves what every branch does.
- `Stack` specifies the stack projection, the in-place reconciliation and the
  per-file colouring.
- `Extension` holds the module state as a class `Session`. Its methods do what
  the extension's functions do, step by step, and each is proved equal to the
  function that specifies it.

The tree is an arena: `nodes` is a sequence addressed by index, and a node's
parent and children are indices. The root is slot 0, and every parent sits at a
lower index than its children. Clearing the tree empties the arena, and a fresh
root replaces it with a single node.

Inside `Session`, the methods keep only the invariant that the references point
into the arena (`Valid`, which is `Addressed`). That the arena is a live
navigation tree (`ValidTree`) is proved of the specification functions:

- exactly one node is flagged current;
- no symbol repeats along a root-to-node path;
- no symbol repeats among siblings.

The lemmas that prove it are `Navigation.UpdateTreeKeepsValidity`,
`Navigation.OpenNodeValid` and `Extension.SelectionLandsOnSymbol`.

## Model

Rows about a single observation assume the ignore flag is clear. While it is set, for one
observation after the open-node command moved the editor, an observation only clears it
(`Navigation.UpdateTreeIgnoredOrReset`).

| member | source | states |
|---|---|---|
| Constants.PaletteColor | src/extension.ts:625-629 | the k-th colour handed out is palette entry k for k < 7, and the palette cycles with period 7 |
| Constants.EmptyWordFacts | src/constants.ts:8 | the placeholder is the literal "EMPTY_WORD" and is not empty |
| Constants.PaletteFacts | src/constants.ts:14-22 | the palette has exactly seven pairwise distinct entries, each `#` plus six hex digits, from purple `#c586c0` to gold `#cca700` |
| Constants.FunctionalKindsFacts | src/constants.ts:27-32 | the functional kinds are exactly Function, Method, Property and Constructor |
| Editor.CursorLocation | src/extension.ts:294-297 | the location built from the cursor is in the editor's document and has an empty range that contains the cursor |
| Helpers.SymbolsIdenticalIgnoresRange | src/helpers.ts:14-18 | two symbols are identical exactly when name, kind and the location URI string agree; ranges and children do not matter |
| Helpers.SymbolsIdenticalIsEquivalence | src/helpers.ts:14-18 | symbol identity is reflexive, symmetric and transitive, and two symbols without a location agree on the file part |
| Helpers.AreSymbolsIdentical | src/helpers.ts:10-19 | symbol identity compares name, kind and the location URI string; `SymbolsIdenticalIgnoresRange` and `SymbolsIdenticalIsEquivalence` state that ranges and children are ignored and that it is an equivalence |
| Helpers.Lookup | src/helpers.ts:39-40 | property access finds a value exactly when the object has the key, and the value found is that of a field with that key |
| Helpers.IsObject | src/helpers.ts:60-62 | `null` and `undefined` are not objects; `NullIsComparedStrictly` states that `null` values are therefore compared strictly |
| Helpers.AreObjectsIdentical | src/helpers.ts:27-53 | a true result implies equal key counts and every key of the first object present in the second |
| Helpers.KeysMatch | src/helpers.ts:38-50 | the key loop succeeds only if every remaining key is present in the second object |
| Helpers.KeysMatchMeaning | src/helpers.ts:38-50 | the key loop succeeds exactly when every remaining field has its key in the second object, with a value identical by the per-key rule |
| Helpers.ObjectsIdenticalMeaning | src/helpers.ts:33-50 | the comparison is true exactly when key counts are equal and every field of the first object is matched in the second |
| Helpers.NestedDifference | src/helpers.ts:41-48 | a nested difference under any key makes the comparison false |
| Helpers.LookupFindsField | src/helpers.ts:39-40 | in an object with distinct keys, looking up a field's key finds that field's value |
| Helpers.ObjectsIdenticalReflexive | src/helpers.ts:27-53 | every object of plain values compares identical to itself, at every depth |
| Helpers.ObjectsIdenticalSymmetric | src/helpers.ts:27-53 | on objects with distinct keys, the comparison does not depend on argument order |
| Helpers.ObjectsIdenticalTransitive | src/helpers.ts:27-53 | the comparison is transitive |
| Helpers.NullIsComparedStrictly | src/helpers.ts:45-47 | `null` is not an object, so `{a: null}` compares identical to `{a: null}`, and `{a: null}` is not identical to `{a: {}}` |
| Tree.PathToRoot | src/tree.ts:97-102 | the walk up from a node starts at it, visits no higher slot, follows parent links, and ends at a node without a parent |
| Tree.FindNodeBySymbol | src/tree.ts:32-47 | the result is the first node of the subtree, in pre-order with children in list order, whose symbol is identical; nothing when there is none |
| Tree.FindInChildren | src/tree.ts:40-45 | the loop over the children returns the first identical node of their subtrees taken in order, each in pre-order, and nothing when none has one |
| Tree.FirstIdenticalFacts | src/tree.ts:68-75 | the first identical node of an order is identical, is preceded by no identical node, and is absent exactly when no node of the order is identical |
| Tree.FindOnPathUp | src/tree.ts:97-102 | the do-while over parent links finds the first identical node of the walk from the node up to the root |
| Tree.ChildSearchIsFirstIdentical | src/tree.ts:55-76 | the child search finds nothing for an empty tree or no current node; otherwise it finds the first direct child of the current node with an identical symbol, and nothing exactly when there is none |
| Tree.AncestorSearchIsFirstIdentical | src/tree.ts:84-105 | the ancestor search finds nothing for an empty tree or no current node; otherwise it finds the nearest node with an identical symbol from the current node (inclusive) up to the root, and nothing exactly when there is none |
| Tree.FindIfSymbolIsChildOfCurrentNode | src/tree.ts:55-76 | a found child exists only when there is a tree with a current node, and it is a slot of the arena |
| Tree.FindIfSymbolIsAncestorOfCurrentNode | src/tree.ts:84-105 | a found ancestor exists only when there is a tree with a current node, and it is a slot of the arena |
| Tree.GetTreeItemIcon | src/tree.ts:112-122 | `arrow-right` exactly for the current node; otherwise `wrench` exactly for properties and `symbol-function` for every other kind |
| Tree.PathEndsAtRoot | src/tree.ts:97-102 | in a well-formed arena every walk up ends at the root, slot 0 |
| Tree.PathToRootFrame | src/tree.ts:97-102 | the walk up depends only on parent links, so changes that keep them keep every walk |
| Classifier.IsSymbolFunctional | src/extension.ts:584-592 | a symbol is functional exactly when its kind is one of the functional kinds |
| Classifier.FirstContaining | src/extension.ts:543-553 | the loop picks the first symbol whose range contains the cursor, and nothing exactly when none does |
| Classifier.Breadcrumb | src/extension.ts:539-554 | every entry of the breadcrumb contains the cursor; `BreadcrumbIsFirstContainingDescent` states that it is the descent through first containing symbols |
| Classifier.BreadcrumbIsFirstContainingDescent | src/extension.ts:539-554 | the breadcrumb is empty exactly when no top-level symbol contains the cursor; it starts with the first containing top-level symbol; each later entry is the first containing child of the previous one; every entry contains the cursor; the descent stops only where no child contains it |
| Classifier.InnermostFunctional | src/extension.ts:563-575 | the backward scan finds the innermost functional entry, with no functional entry after it, and nothing exactly when none is functional |
| Classifier.RelevantSymbol | src/extension.ts:561-582 | nothing exactly for an empty breadcrumb, and otherwise one of its entries; `RelevantSymbolFacts` adds that a functional entry is chosen whenever there is one |
| Classifier.GetRelevantSymbol | src/extension.ts:561-582 | the backward loop returns the choice `RelevantSymbol` describes |
| Classifier.RelevantSymbolFacts | src/extension.ts:561-582 | nothing only for an empty breadcrumb; always an entry of it; a functional entry whenever there is one; the innermost entry when none is functional |
| Classifier.CallbackScenario | src/extension.ts:567-570 | an anonymous callback inside a function is attributed to the enclosing function |
| Navigation.MoveTo | src/extension.ts:379-384 | moving keeps the length, links, symbols and colours; only the target is flagged current in place of the old current node; only the target takes the new word, range and location |
| Navigation.Extend | src/extension.ts:405-419 | extending appends exactly one slot, a current childless node whose parent is the old current node; the old current node loses its flag and gains the new slot as its last child; every other node is unchanged |
| Navigation.BranchOf | src/extension.ts:343-437 | the branch chosen always fits the state: a symbol for the branches that plant one, a current node for moves and extensions, and a move target inside the arena |
| Navigation.TakeBranch | src/extension.ts:343-437 | no branch sets the ignore flag and the ignored branch clears it; the ignored and clearing branches keep the paths list; every other branch leaves a current node inside the arena |
| Navigation.UpdateTreeSpec | src/extension.ts:343-437 | after any observation the ignore flag is clear; the branch lemmas `UpdateTreeIgnoredOrReset` to `UpdateTreeRestarts` state what each branch does |
| Navigation.OpenNodeSpec | src/extension.ts:219-223 | the clicked node becomes the root's current node; the arena keeps its length and every node's links, symbol, word and colour; exactly the clicked node is flagged current, in place of the old current node |
| Navigation.SameShapeKeepsInvariants | src/extension.ts:379-399 | changing only words, locations and the current flag keeps the links, the walks and the distinctness of symbols |
| Navigation.SingleRootValid | src/extension.ts:356-370 | a fresh single root is a valid tree |
| Navigation.MoveToValid | src/extension.ts:379-399 | moving the current node within a valid tree keeps it valid |
| Navigation.OpenNodeValid | src/extension.ts:219-223 | the open-node swap keeps a valid tree valid, with the clicked node as the only current node |
| Navigation.ExtendWellFormed | src/extension.ts:405-419 | appending a child keeps the arena one tree rooted at slot 0: parents below children, children lists in creation order, and parent and child links describing the same edges |
| Navigation.ExtendPaths | src/extension.ts:405-419 | appending keeps every old walk up, and the new node's walk continues through the old current node |
| Navigation.ExtendValid | src/extension.ts:373-421 | extending is valid when neither the children of the current node nor the nodes up to the root have an identical symbol |
| Navigation.ExtendPathsDistinct | src/extension.ts:389-421 | extending after a failed ancestor search keeps symbols distinct along every root-to-node path |
| Navigation.ExtendKeepsOldPath | src/extension.ts:405-419 | after an extension, an old node's symbol is still distinct from those of all its proper ancestors |
| Navigation.ExtendNewPath | src/extension.ts:405-419 | when no node from the current node up to the root has an identical symbol, the new node's symbol is distinct from those of all its proper ancestors |
| Navigation.ExtendSiblingsDistinct | src/extension.ts:373-421 | extending after a failed child search keeps sibling symbols distinct |
| Navigation.UpdateTreeKeepsValidity | src/extension.ts:337-438 | every observation leaves a valid tree valid: one current node, distinct symbols along paths and among siblings |
| Navigation.MoveBranchKeepsValidity | src/extension.ts:373-401 | the child and ancestor moves keep a valid tree valid |
| Navigation.UpdateTreeKeepsAddressed | src/extension.ts:337-438 | every observation keeps the root references inside the arena and keeps a current node exactly when there is a tree |
| Navigation.ExtendAddressed | src/extension.ts:405-419 | appending a child keeps parents below and children above their node |
| Navigation.ChildMoveTarget | src/extension.ts:373-386 | a move to a child targets a slot of the arena and changes only the arena and the current node |
| Navigation.AncestorMoveTarget | src/extension.ts:388-401 | a move to an ancestor targets a slot of the arena and changes only the arena and the current node |
| Navigation.UpdateTreeIgnoredOrReset | src/extension.ts:343-353 | while the ignore flag is set, the observation only clears the flag; otherwise an absent symbol clears the tree and keeps the paths list; the flag is always clear afterwards |
| Navigation.UpdateTreeStartsTree | src/extension.ts:356-370 | with the ignore flag clear, a symbol observed on an empty tree becomes a single current root with the first palette colour, and the paths list ends empty |
| Navigation.UpdateTreeMovesToChild | src/extension.ts:373-386 | with the ignore flag clear, with a matching child, the first such child becomes current whatever the ancestors or the word say; the shape is unchanged; only the new current node's word, range and location change |
| Navigation.UpdateTreeMovesToAncestor | src/extension.ts:388-401 | with the ignore flag clear, with no matching child but a matching node up to the root, the nearest one becomes current even when the name equals the current word; the shape is unchanged |
| Navigation.UpdateTreeExtends | src/extension.ts:403-421 | with the ignore flag clear, with no match and the name equal to the current word, exactly one childless node is appended as the old current node's last child, with the next palette colour; its path is recorded; every other node is unchanged except for the old current flag |
| Navigation.UpdateTreeRestarts | src/extension.ts:423-437 | with the ignore flag clear, with no match and a different name, the tree is replaced by a single current root with the first palette colour, and the paths list restarts with its file |
| Navigation.UpdateTreeLandsOnObservation | src/extension.ts:356-437 | with the ignore flag clear, whichever branch runs, the new current node is in the arena, its symbol is identical to the observed one, and it carries the observed word, range and location |
| Navigation.UpdateTreeIdempotent | src/extension.ts:337-438 | with the ignore flag clear, observing the same thing twice in a row changes nothing the second time |
| Navigation.RepeatSymbolStays | src/extension.ts:388-401 | with the ignore flag clear, observing the current node's symbol again, with any word, range and location, keeps the root, the shape and the current node, and overwrites only that node's word, range and location |
| Navigation.UpdateTreeKeepsOldSlots | src/extension.ts:343-421 | the ignored observation, both moves and the extension keep every old slot's parent link and symbol, and never remove a slot |
| Navigation.FreshRootMissesOldRoot | src/extension.ts:388-437 | a fresh tree is started only for a symbol that is not identical to the old root's, since the ancestor search reaches the root |
| Navigation.RevisitIsNoOp | src/extension.ts:388-401 | with the ignore flag clear, observing again exactly what the current node holds leaves the state as it is |
| Navigation.SecondVisitFindsCurrent | src/tree.ts:84-105 | in a valid tree, a symbol identical to the current node's matches none of its children and is found first at the current node itself |
| Stack.GetPartialStackFromTree | src/extension.ts:497-520 | the parent walk and reversal give the projection of the tree: the rows of the walk from the root down to the current node |
| Stack.ProjectionShape | src/extension.ts:497-520 | for a valid tree with a current node, the stack has one row per node from the root to the current node; each row copies its node and references it; each row's node is the parent of the next; only the last row is current |
| Stack.ProjectionRows | src/extension.ts:505-519 | row k copies the node k steps below the root on the walk from the current node |
| Stack.ElementOf | src/extension.ts:505-513 | a row copies its node's symbol, word, range, location, current flag and colour, and references the node; `ProjectionRows` states that row k is the copy of the node k steps below the root |
| Stack.ProjectionEnds | src/extension.ts:505-519 | the stack starts at the root and ends at the current node |
| Stack.ProjectionLinks | src/extension.ts:505-516 | each row's node is the parent of the next row's node |
| Stack.ProjectionCurrentLast | src/extension.ts:511 | when only the current node is flagged, only the last row is current |
| Stack.PathStrictlyDecreasing | src/extension.ts:505-517 | the walk up visits strictly smaller slots, so it never revisits a node |
| Stack.Paths | src/extension.ts:529-530 | one file path per row, in row order |
| Stack.Distinct | src/extension.ts:531-534 | the distinct paths: the same values as the list, without repetition |
| Stack.IndexOf | src/extension.ts:532 | the position of a value in a list without repetition |
| Stack.Colored | src/extension.ts:525-537 | colouring keeps the length and changes only each row's colour, to the colour of its file |
| Stack.DistinctPrefix | src/extension.ts:528-536 | the distinct paths of a prefix are a prefix of the distinct paths |
| Stack.DistinctStep | src/extension.ts:531-534 | one more row extends the distinct paths by its path exactly when that path is new |
| Stack.DistinctFirstAppearanceOrder | src/extension.ts:528-536 | the distinct paths appear in order of first appearance |
| Stack.SameFileSameColor | src/extension.ts:531-535 | rows of the same file get the same colour |
| Stack.ColorByRank | src/extension.ts:532 | the k-th distinct file, in order of first appearance, gets palette entry k mod 7 |
| Stack.ColorOf | src/extension.ts:531-535 | a file's colour is always a palette entry; `ColorByRank` and `SameFileSameColor` state which one |
| Stack.FirstRowPurple | src/extension.ts:526-535 | the first row is always purple `#c586c0` |
| Stack.EighthFileWraps | src/extension.ts:532 | the eighth distinct file repeats the first file's colour |
| Stack.Refreshed | src/extension.ts:483-492 | the in-place refresh keeps the length and every row's symbol, colour and node; only the row at the candidate's last index is current, and it takes the candidate's word, range and location; every other row keeps its word, range and location |
| Stack.ContainsPrefix | src/extension.ts:468-482 | the old stack contains the candidate when it is not empty, is at least as long, and agrees with it symbol by symbol; `Extension.Session.CheckAndUpdateNewStackContainsPartialStack` returns exactly this test |
| Stack.NewStackTracksCurrent | src/extension.ts:443-495 | after reconciliation with a valid non-empty tree, exactly one row is current, at the depth of the current node; its symbol is identical to the current node's, and it carries the current node's word, range and location |
| Stack.NewStackOfEmptyTree | src/extension.ts:443-452 | with no tree the stack becomes empty |
| Stack.NewStackAfter | src/extension.ts:443-462 | the reconciled stack is empty exactly when there is no tree or no current node; `NewStackTracksCurrent` and `NewStackIdempotent` state the rest |
| Stack.NewStackIdempotent | src/extension.ts:443-462 | reconciling twice against the same tree changes nothing the second time |
| Stack.NewStackContainsProjection | src/extension.ts:443-495 | after reconciliation with a valid tree that has a current node, the stack contains that tree's projection symbol by symbol |
| Stack.ProjectionFollowsLinks | src/extension.ts:505-519 | arenas with the same parent links and symbols project rows with the same symbols and node references |
| Stack.RowsFollowProjection | src/extension.ts:464-482 | when a root-down walk of a valid tree contains its projection symbol by symbol, its first rows reference the very nodes of the projection, since siblings have distinct symbols |
| Stack.RefreshAtCurrentRow | src/extension.ts:483-492 | refreshing a stack whose only current row is the candidate's last changes only that row's word, range and location |
| Stack.NewStackOnTree | src/extension.ts:443-495 | reconciling a stack that is a root-down walk of a valid tree gives a walk of that tree, whichever path is taken |
| Stack.RefreshedOnTree | src/extension.ts:483-492 | the in-place refresh keeps a walk of the tree a walk, since no row's node or symbol changes |
| Stack.ColoredProjectionOnTree | src/extension.ts:497-537 | the recoloured projection is a walk of the tree from the root |
| Stack.NewStackCurrentRowIsCurrentNode | src/webViews/stackPanel.ts:50-55 | after reconciling a walk of a valid tree with a current node, the current row, at the depth of the current node, references the tree's current node itself |
| Extension.Observe | src/extension.ts:302-313 | the observed range is the editor's word range or, failing that, the cursor's range; the observed word is that range's text, or the placeholder when the text is empty, and is never empty |
| Extension.ObserveAtBareCursor | src/extension.ts:294-306 | on no word, the observed range is the empty range at the cursor and contains it |
| Extension.Session.constructor | src/extension.ts:21-38 | the initial state: no tree, flag clear, no paths, empty stack and breadcrumb |
| Extension.Session.PushFilePath | src/extension.ts:611-623 | the path is always appended, and its new index is returned |
| Extension.Session.GetFileColor | src/extension.ts:625-629 | the colour is the palette entry at the old length of the paths list, cycling, and the path is appended |
| Extension.Session.UpdateTree | src/extension.ts:337-438 | the new state is `UpdateTreeSpec` of the old one, and the root references stay inside the arena |
| Extension.Session.PlantRoot | src/extension.ts:356-370 | the arena becomes a single current root coloured from an emptied paths list, which then holds only its file |
| Extension.Session.MoveCurrentTo | src/extension.ts:379-384 | the arena becomes `MoveTo` of the old one, and the target becomes current |
| Extension.Session.AddChild | src/extension.ts:405-419 | the arena becomes `Extend` of the old one, with the next palette colour; the new slot becomes current, and the path is appended |
| Extension.Session.FindSymbol | src/extension.ts:539-554 | the breadcrumb list grows by exactly `Breadcrumb(symbols, position)` |
| Extension.Session.CheckAndUpdateNewStackContainsPartialStack | src/extension.ts:464-495 | the result is true exactly when the old stack contains the candidate symbol by symbol; the stack then becomes `Refreshed`, and otherwise it is unchanged |
| Extension.Session.ColorNewStack | src/extension.ts:525-537 | the loop with its map leaves exactly `Colored` of the old stack |
| Extension.ColorMapStep | src/extension.ts:529-535 | one loop step keeps the map equal to the colours of the paths seen so far and the counter equal to their number |
| Extension.ColorMapSeenPath | src/extension.ts:531-535 | a path seen before keeps the map and its colour |
| Extension.ColorMapNewPath | src/extension.ts:531-534 | a new path gets the colour of its rank, and the counter grows by one |
| Extension.NewPathRank | src/extension.ts:532-533 | a path first appearing at row i has rank equal to the number of distinct paths before i |
| Extension.ColoredRows | src/extension.ts:528-536 | once every row is coloured, the rows are those of `Colored` |
| Extension.Session.UpdateNewStack | src/extension.ts:443-462 | the new stack is `NewStackAfter` of the old stack and the tree |
| Extension.Session.OpenNode | src/extension.ts:216-250 | with no node nothing changes; otherwise the clicked node becomes the only current node, as `OpenNodeSpec` says; then either the stack is rebuilt (editor already there) or the ignore flag is set and the stack is kept |
| Extension.Session.OnSelectionChanged | src/extension.ts:275-328 | with an editor, the breadcrumb is rebuilt for the cursor, the tree is updated with the relevant symbol and the normalised observation, and the stack is reconciled; without one nothing changes |
| Extension.SelectionLandsOnSymbol | src/extension.ts:275-328 | with the ignore flag clear, on a valid tree, a selection inside a symbol leaves a valid tree whose stack has exactly one current row, with a symbol identical to the observed one and the observed word, range and location |
| Extension.SelectionOutsideSymbolsClears | src/extension.ts:349-353 | with the ignore flag clear, a selection inside no symbol clears the tree and empties the stack |
| Extension.SelectionKeepsStackOnTree | src/extension.ts:337-495 | a stack that is a root-down walk of a valid tree stays a walk of the updated tree after any observation, so every row references a node of the arena |
| Extension.FreshRootDropsOldStack | src/extension.ts:464-495 | when a fresh tree is started, the old stack never contains the new projection, so it is replaced by the recoloured projection |
| Extension.OpenNodeKeepsStackOnTree | src/webViews/stackPanel.ts:50-55 | the node opened from a stack row is a slot of the arena, and after the open-node swap the stack is still a walk of the tree, whether or not it is reconciled |
| Extension.RepeatSymbolRefreshesInPlace | src/extension.ts:388-495 | with the ignore flag clear, moving within the current symbol keeps the tree's root and shape; the stack is refreshed in place, keeping its length, symbols, colours and nodes, and only its current row takes the new word, range and location |
| Extension.ReturnToCallerKeepsLongerStack | src/extension.ts:464-495 | from no tree, observing `foo` on the word `bar`, then `bar`, then `foo` again leaves the root current and the stack `[foo (current), bar]` |

## Left out

- Activation, provider registration, tree and webview refreshes, all rendering, and console logging are not modelled: they do not change the navigation state.
- The document symbol provider call and the editor's `getWordRangeAtPosition` and `getText` are parameters: the outline, the word range at the cursor and a text lookup function `textOf`.
- `showTextDocument` in the open-node and stack commands is not modelled; it is an editor side effect.
- OpenNode: whether the editor already shows the clicked node's word is a boolean input. This covers the range comparison and the path test. When the cursor is on no word, the source throws in that test, because `Object.keys(undefined)` fails; the model does not represent this.
- OpenNode: the clicked node is an arena slot, since the tree view only shows nodes of the current tree.
- `getRandomLightColor` is not modelled: it depends on `Math.random` and nothing calls it.
- `colorMap`, `lastSymbol`, `lastWord`, `lastLocation` and the `stack` variable with its command are not modelled: nothing in the core reads them.
- `getNewStackCopy` is not modelled: it is a serialisation for the views.
- Helpers.AreObjectsIdentical: it covers only plain values (integers, strings, booleans, null and objects). `undefined`-valued properties and NaN are excluded, since with them the comparison is neither symmetric nor reflexive.
- Extension.Session.ColorNewStack: the source tests map membership with `!fileColorMap[text]`. A path equal to an inherited object key such as `constructor` would read as present; paths are taken as ordinary keys.
- Nodes are arena slots rather than heap objects. No slot becomes unreachable: moves keep every link, clearing empties the arena and a fresh root replaces it.
- PushFilePath: the `forEach` scan in the source returns only from its callback and has no effect, so no loop is modelled for it.
- Stack.GetPartialStackFromTree: the library `reverse()` is modelled as the function `Reverse`.
- Extension.Session.PlantRoot, Extension.Session.MoveCurrentTo, Extension.Session.AddChild: these factor out the source's repeated blocks inside `updateTree`, so the updates stay the same.
- Extension.Session.OpenNode: the methods keep only `Valid` (references inside the arena). The stronger `ValidTree` is proved of `OpenNodeSpec` and `UpdateTreeSpec` by `Navigation.OpenNodeValid` and `Navigation.UpdateTreeKeepsValidity`.
- Extension.Session.OnSelectionChanged: the same applies; the stronger `ValidTree` invariant is proved by `Extension.SelectionLandsOnSymbol`.
- The selection listener's one `await`, on the symbol provider, splits it in two; `Extension.Session.OnSelectionChanged` is the part after it, so interleaved events are orderings of whole calls. An undefined outline makes `findSymbol` throw after the breadcrumb is emptied, leaving the tree, the ignore flag and the stack untouched; the outline is always a sequence here, so that case is the absence of a call.
