/**
 * The slice of the editor API the navigation core consumes: positions,
 * ranges, file identities, locations and document symbols. These values are
 * produced by the editor's symbol provider; the core only reads them.
 */
module Editor {
  import opened Wrappers

  /** A zero-based (line, character) pair. */
  datatype Position = Position(line: nat, character: nat)

  /** `a` is at or before `b` in document order. */
  predicate BeforeOrEqual(a: Position, b: Position) {
    a.line < b.line || (a.line == b.line && a.character <= b.character)
  }

  /** A span of a document; both ends are inclusive for `Contains`. */
  datatype Range = Range(start: Position, end: Position)

  /** The editor's `Range.contains(position)`: start <= position <= end. */
  predicate Contains(r: Range, p: Position) {
    BeforeOrEqual(r.start, p) && BeforeOrEqual(p, r.end)
  }

  /** A file identity; `fsPath` is the file-system path the colour logic keys on. */
  datatype Uri = Uri(fsPath: string)

  /** A place in a file. A cursor location is the empty range at the cursor. */
  datatype Location = Location(uri: Uri, range: Range)

  /** The location the editor builds from a file and a bare cursor position. */
  function CursorLocation(uri: Uri, position: Position): (l: Location)
    ensures l.uri == uri && Contains(l.range, position)
    ensures l.range.start == l.range.end
  {
    Location(uri, Range(position, position))
  }

  /**
   * The editor's symbol kinds. The four that matter to the core are named;
   * every other kind of the editor's enumeration is `Other(code)`, with
   * distinct codes for distinct kinds.
   */
  datatype SymbolKind = Function | Method | Property | Constructor | Other(code: nat)

  /**
   * A document symbol as the outline provider returns it. `uri` is the
   * string form of the symbol's defining file (`location?.uri.toString()`),
   * absent when the symbol carries no location.
   */
  datatype DocumentSymbol = DocumentSymbol(
    name: string,
    kind: SymbolKind,
    uri: Option<string>,
    range: Range,
    children: seq<DocumentSymbol>)
}
