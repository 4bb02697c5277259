/** The record types shared by the stack projector and its consumers (src/dataTypes.ts). */
module DataTypes {
  import opened Editor

  /**
   * One row of the navigation stack: a copy of a tree node's fields, the
   * colour of its file, and `node`, the arena index of the node it was
   * derived from.
   */
  datatype StackElement = StackElement(
    symbol: DocumentSymbol,
    word: string,
    wordRange: Range,
    location: Location,
    isCurrent: bool,
    color: string,
    node: nat)
}
