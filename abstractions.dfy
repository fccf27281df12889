/** The two collaborators a word counter is built from. */
module Abstractions {

  /** A UTF-16 code unit: the width and range of a C# `char`. */
  type CodeUnit = bv16

  /**
   * Categorises the input stream into words and separators (IInputTokenizer).
   * A character for which both tests fail is invalid.
   */
  datatype Tokenizer = Tokenizer(
    wordTest: CodeUnit -> bool,
    separatorTest: CodeUnit -> bool)
  {
    predicate IsWordCharacter(ch: CodeUnit) {
      wordTest(ch)
    }

    predicate IsSeparatorCharacter(ch: CodeUnit) {
      separatorTest(ch)
    }

    /** The counter accepts a character when either test holds. */
    predicate Accepts(ch: CodeUnit) {
      IsWordCharacter(ch) || IsSeparatorCharacter(ch)
    }
  }

  /** Decides whether a complete word satisfies the condition (IWordMatcher). */
  datatype WordMatcher = WordMatcher(test: seq<CodeUnit> -> bool)
  {
    predicate Matches(word: seq<CodeUnit>) {
      test(word)
    }
  }
}
