/** The unit of output of the annotator (src/token.rs). */
module Tokens {
  import opened Wrappers

  /** A segment of the input: its text, the Jyutping reading of its first
      dictionary entry (none for alpha runs and unknown characters), and a
      field for the Yale renderings of that reading, which the segmenter
      leaves `None` and nothing else fills in. */
  datatype Token = Token(word: string, reading: Option<string>, yale: Option<seq<string>>)
}
