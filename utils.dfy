/**
 * Character classification used by the segmenter's alpha-run rule
 * (src/utils.rs).
 *
 * `char::is_alphanumeric` consults the Unicode letter and digit tables,
 * which are not part of this model: every predicate that needs it takes it
 * as a parameter `alnum`.
 */
module Utils {

  /** The CJK ideograph blocks: Unified Ideographs, Extensions A to E and
      the Compatibility Ideographs block, with their exact boundaries. */
  predicate IsCjk(c: char) {
    || ('\U{4E00}' <= c <= '\U{9FFF}')    // CJK Unified Ideographs
    || ('\U{3400}' <= c <= '\U{4DBF}')    // Extension A
    || ('\U{20000}' <= c <= '\U{2A6DF}')  // Extension B
    || ('\U{2A700}' <= c <= '\U{2B73F}')  // Extension C
    || ('\U{2B740}' <= c <= '\U{2B81F}')  // Extension D
    || ('\U{2B820}' <= c <= '\U{2CEAF}')  // Extension E
    || ('\U{F900}' <= c <= '\U{FAFF}')    // CJK Compatibility Ideographs
  }

  /** A letter or digit that is not a CJK ideograph. */
  predicate IsAlphaChar(alnum: char -> bool, c: char) {
    alnum(c) && !IsCjk(c)
  }

  /** The intra-word connectors: hyphen, underscore, apostrophe. */
  predicate IsConnector(c: char) {
    c == '-' || c == '_' || c == '\''
  }

  /** The two rare Cantonese characters the classifier is documented to
      accept lie in Extension B. */
  lemma RareCharactersAreCjk()
    ensures IsCjk('\U{20BA9}') && IsCjk('\U{20E4C}')
  {
  }

  /** Each block's first and last code point is CJK, and the code points just
      outside a block (where no other block begins) are not. */
  lemma CjkBlockBoundaries()
    ensures IsCjk('\U{4E00}') && IsCjk('\U{9FFF}') && !IsCjk('\U{4DFF}') && !IsCjk('\U{A000}')
    ensures IsCjk('\U{3400}') && IsCjk('\U{4DBF}') && !IsCjk('\U{33FF}') && !IsCjk('\U{4DC0}')
    ensures IsCjk('\U{20000}') && IsCjk('\U{2A6DF}') && !IsCjk('\U{1FFFF}') && !IsCjk('\U{2A6E0}')
    ensures IsCjk('\U{2A700}') && IsCjk('\U{2B73F}') && !IsCjk('\U{2A6FF}')
    ensures IsCjk('\U{2B740}') && IsCjk('\U{2B81F}')
    ensures IsCjk('\U{2B820}') && IsCjk('\U{2CEAF}') && !IsCjk('\U{2CEB0}')
    ensures IsCjk('\U{F900}') && IsCjk('\U{FAFF}') && !IsCjk('\U{F8FF}') && !IsCjk('\U{FB00}')
  {
  }

  /** Whatever the alphanumeric table says, a CJK ideograph is never an
      alpha character, and neither is a connector that the table leaves out. */
  lemma AlphaCharExcludesCjk(alnum: char -> bool, c: char)
    ensures IsAlphaChar(alnum, c) ==> alnum(c) && !IsCjk(c)
    ensures IsCjk(c) ==> !IsAlphaChar(alnum, c)
  {
  }

  /** Exactly three connectors; `%` is not one, and no connector is CJK. */
  lemma ConnectorsExactly(c: char)
    ensures IsConnector(c) <==> c in {'-', '_', '\''}
    ensures !IsConnector('%')
    ensures IsConnector(c) ==> !IsCjk(c)
  {
  }
}
