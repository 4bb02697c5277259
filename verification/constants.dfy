/** The fixed values shared by the navigation core (src/constants.ts). */
module Constants {
  import opened Editor

  /** Placeholder word used when the cursor is on no word. */
  const EMPTY_WORD: string := "EMPTY_WORD"

  /** The file-colour palette, in the order colours are handed out. */
  const ALLOWED_COLORS: seq<string> := [
    "#c586c0", // purple
    "#9cdcfe", // light blue
    "#dcdcaa", // yellow
    "#73c991", // light green
    "#f88070", // light red
    "#ce9178", // orange
    "#cca700"  // gold
  ]

  /** The symbol kinds that can anchor a navigation node. */
  const FUNCTIONAL_SYMBOL_KINDS: seq<SymbolKind> := [Function, Method, Property, Constructor]

  predicate IsHexDigit(c: char) {
    ('0' <= c <= '9') || ('a' <= c <= 'f') || ('A' <= c <= 'F')
  }

  /** `#` followed by exactly six hexadecimal digits. */
  predicate IsHexColor(s: string) {
    |s| == 7 && s[0] == '#' && forall i :: 1 <= i < 7 ==> IsHexDigit(s[i])
  }

  /** The palette entry used for the k-th colour handed out: the palette cycles. */
  function PaletteColor(k: nat): (c: string)
    ensures c in ALLOWED_COLORS && IsHexColor(c)
    ensures k < |ALLOWED_COLORS| ==> c == ALLOWED_COLORS[k]
    ensures k >= |ALLOWED_COLORS| ==> c == PaletteColor(k - |ALLOWED_COLORS|)
  {
    PaletteFacts();
    assert k >= 7 ==> k % 7 == (k - 7) % 7;
    ALLOWED_COLORS[k % |ALLOWED_COLORS|]
  }

  /** The placeholder is the literal "EMPTY_WORD" and is never the empty string. */
  lemma EmptyWordFacts()
    ensures EMPTY_WORD == "EMPTY_WORD" && |EMPTY_WORD| > 0
  {
  }

  /**
   * The palette has seven pairwise distinct entries, each a hex colour,
   * starting with purple and ending with gold.
   */
  lemma PaletteFacts()
    ensures |ALLOWED_COLORS| == 7
    ensures forall i, j :: 0 <= i < j < |ALLOWED_COLORS| ==> ALLOWED_COLORS[i] != ALLOWED_COLORS[j]
    ensures forall c :: c in ALLOWED_COLORS ==> IsHexColor(c)
    ensures ALLOWED_COLORS[0] == "#c586c0" && ALLOWED_COLORS[6] == "#cca700"
  {
    forall i, j | 0 <= i < j < |ALLOWED_COLORS|
      ensures ALLOWED_COLORS[i] != ALLOWED_COLORS[j]
    {
      assert ALLOWED_COLORS[i][1] != ALLOWED_COLORS[j][1] || ALLOWED_COLORS[i][2] != ALLOWED_COLORS[j][2];
    }
  }

  /** The functional kinds are exactly Function, Method, Property and Constructor. */
  lemma FunctionalKindsFacts()
    ensures |FUNCTIONAL_SYMBOL_KINDS| == 4
    ensures forall k: SymbolKind :: k in FUNCTIONAL_SYMBOL_KINDS <==> k.Function? || k.Method? || k.Property? || k.Constructor?
  {
  }
}
