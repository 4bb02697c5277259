/**
 * The symbol classifier (src/extension.ts, `findSymbol`, `getRelevantSymbol`,
 * `isSymbolFunctional`): from the document's symbol tree and the cursor
 * position, the breadcrumb of enclosing symbols and the one symbol that
 * anchors navigation.
 */
module Classifier {
  import opened Wrappers
  import opened Editor
  import opened Constants

  /** `isSymbolFunctional`: a Function, Method, Property or Constructor. */
  function IsSymbolFunctional(symbol: DocumentSymbol): (r: bool)
    ensures r <==> symbol.kind in FUNCTIONAL_SYMBOL_KINDS
  {
    symbol.kind == Function || symbol.kind == Method || symbol.kind == Property || symbol.kind == Constructor
  }

  /** The index of the first symbol of `symbols` whose range contains `position`. */
  function FirstContaining(symbols: seq<DocumentSymbol>, position: Position): (r: Option<nat>)
    ensures r.None? <==> forall j :: 0 <= j < |symbols| ==> !Contains(symbols[j].range, position)
    ensures r.Some? ==> r.value < |symbols| && Contains(symbols[r.value].range, position)
    ensures r.Some? ==> forall j :: 0 <= j < r.value ==> !Contains(symbols[j].range, position)
  {
    if symbols == [] then None
    else if Contains(symbols[0].range, position) then Some(0)
    else
      match FirstContaining(symbols[1..], position)
      case None => None
      case Some(k) => Some(k + 1)
  }

  /**
   * What `findSymbol` appends to the breadcrumb: the first symbol whose range
   * contains the position, then, descending into its children, the same again.
   */
  function Breadcrumb(symbols: seq<DocumentSymbol>, position: Position): (r: seq<DocumentSymbol>)
    decreases symbols
    ensures forall k :: 0 <= k < |r| ==> Contains(r[k].range, position)
  {
    match FirstContaining(symbols, position)
    case None => []
    case Some(i) => [symbols[i]] + Breadcrumb(symbols[i].children, position)
  }

  /** `child` is the first child of `parent` whose range contains the position. */
  predicate DescendsTo(parent: DocumentSymbol, child: DocumentSymbol, position: Position) {
    var i := FirstContaining(parent.children, position);
    i.Some? && child == parent.children[i.value]
  }

  /** No child of `symbol` contains the position, so the descent stops at `symbol`. */
  predicate NoChildContains(symbol: DocumentSymbol, position: Position) {
    forall j :: 0 <= j < |symbol.children| ==> !Contains(symbol.children[j].range, position)
  }

  /**
   * The breadcrumb is a single descent: it is empty exactly when no
   * top-level symbol contains the position; its first entry is the first
   * top-level symbol containing the position; every later entry is the first
   * child of the previous entry containing the position; and the descent
   * stops only where no child of the last entry contains the position.
   */
  lemma {:induction false} BreadcrumbIsFirstContainingDescent(symbols: seq<DocumentSymbol>, position: Position)
    ensures var c := Breadcrumb(symbols, position);
      && (c == [] <==> FirstContaining(symbols, position).None?)
      && (c != [] ==> FirstContaining(symbols, position).Some?
                      && c[0] == symbols[FirstContaining(symbols, position).value])
      && (forall k :: 0 <= k < |c| - 1 ==> DescendsTo(c[k], c[k + 1], position))
      && (c != [] ==> NoChildContains(c[|c| - 1], position))
      && (forall k :: 0 <= k < |c| ==> Contains(c[k].range, position))
    decreases symbols
  {
    match FirstContaining(symbols, position)
    case None =>
    case Some(i) =>
      var tail := Breadcrumb(symbols[i].children, position);
      BreadcrumbIsFirstContainingDescent(symbols[i].children, position);
      var c := [symbols[i]] + tail;
      assert Breadcrumb(symbols, position) == c;
      forall k | 0 <= k < |c| - 1
        ensures DescendsTo(c[k], c[k + 1], position)
      {
        if k > 0 {
          assert c[k] == tail[k - 1] && c[k + 1] == tail[k];
        }
      }
  }

  predicate EndsWith(s: string, suffix: string) {
    |suffix| <= |s| && s[|s| - |suffix|..] == suffix
  }

  /** The position of the innermost (last) functional entry of a breadcrumb. */
  function InnermostFunctional(crumbs: seq<DocumentSymbol>): (r: Option<nat>)
    ensures r.None? <==> forall j :: 0 <= j < |crumbs| ==> !IsSymbolFunctional(crumbs[j])
    ensures r.Some? ==> r.value < |crumbs| && IsSymbolFunctional(crumbs[r.value])
    ensures r.Some? ==> forall j :: r.value < j < |crumbs| ==> !IsSymbolFunctional(crumbs[j])
  {
    if crumbs == [] then None
    else if IsSymbolFunctional(crumbs[|crumbs| - 1]) then Some(|crumbs| - 1)
    else InnermostFunctional(crumbs[..|crumbs| - 1])
  }

  /**
   * The symbol `getRelevantSymbol` picks: the innermost functional entry, or
   * the entry just outside it when its name ends in " callback" and that
   * outer entry is functional too; failing any functional entry, the
   * innermost entry; nothing for an empty breadcrumb.
   */
  function RelevantSymbol(crumbs: seq<DocumentSymbol>): (r: Option<DocumentSymbol>)
    ensures r.None? <==> crumbs == []
    ensures r.Some? ==> r.value in crumbs
  {
    match InnermostFunctional(crumbs)
    case Some(i) =>
      if EndsWith(crumbs[i].name, " callback") && i >= 1 && IsSymbolFunctional(crumbs[i - 1])
      then Some(crumbs[i - 1])
      else Some(crumbs[i])
    case None =>
      if |crumbs| > 0 then Some(crumbs[|crumbs| - 1]) else None
  }

  /** `getRelevantSymbol`: scans the breadcrumb from the innermost entry outwards. */
  method GetRelevantSymbol(symbolBreadcrumbs: seq<DocumentSymbol>) returns (r: Option<DocumentSymbol>)
    ensures r == RelevantSymbol(symbolBreadcrumbs)
  {
    var i: int := |symbolBreadcrumbs| - 1;
    while i >= 0
      invariant -1 <= i < |symbolBreadcrumbs|
      invariant forall j :: i < j < |symbolBreadcrumbs| ==> !IsSymbolFunctional(symbolBreadcrumbs[j])
    {
      var symbol := symbolBreadcrumbs[i];
      if IsSymbolFunctional(symbol) {
        if EndsWith(symbol.name, " callback") {
          if i - 1 >= 0 && IsSymbolFunctional(symbolBreadcrumbs[i - 1]) {
            return Some(symbolBreadcrumbs[i - 1]);
          }
        }
        return Some(symbol);
      }
      i := i - 1;
    }
    if |symbolBreadcrumbs| > 0 {
      return Some(symbolBreadcrumbs[|symbolBreadcrumbs| - 1]);
    }
    return None;
  }

  /**
   * What the choice guarantees: nothing only for an empty breadcrumb; always
   * an entry of the breadcrumb; a functional entry whenever there is one,
   * never one inside the innermost functional entry; the innermost entry
   * when none is functional.
   */
  lemma RelevantSymbolFacts(crumbs: seq<DocumentSymbol>)
    ensures RelevantSymbol(crumbs).None? <==> crumbs == []
    ensures RelevantSymbol(crumbs).Some? ==> RelevantSymbol(crumbs).value in crumbs
    ensures (exists j :: 0 <= j < |crumbs| && IsSymbolFunctional(crumbs[j])) ==>
      IsSymbolFunctional(RelevantSymbol(crumbs).value)
    ensures (forall j :: 0 <= j < |crumbs| ==> !IsSymbolFunctional(crumbs[j])) && crumbs != [] ==>
      RelevantSymbol(crumbs) == Some(crumbs[|crumbs| - 1])
  {
  }

  /** An anonymous callback inside a function is attributed to that function. */
  lemma CallbackScenario(outer: DocumentSymbol, callback: DocumentSymbol)
    requires outer.kind == Function && callback.kind == Function
    requires callback.name == "anonymous callback"
    ensures RelevantSymbol([outer, callback]) == Some(outer)
  {
    assert EndsWith(callback.name, " callback");
  }
}
