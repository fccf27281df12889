/** The default tokenizer: English letters make words; space, CR and LF separate them. */
module InputTokenizer {
  import opened Abstractions

  const LowerA: CodeUnit := 0x61
  const LowerZ: CodeUnit := 0x7A
  const UpperA: CodeUnit := 0x41
  const UpperZ: CodeUnit := 0x5A
  const Tab: CodeUnit := 0x09
  const LineFeed: CodeUnit := 0x0A
  const CarriageReturn: CodeUnit := 0x0D
  const Space: CodeUnit := 0x20

  const ValidSeparators: seq<CodeUnit> := [Space, CarriageReturn, LineFeed]

  /**
   * Word characters are the lower- and upper-case English letters: exactly
   * the code units that setting bit 0x20 turns into a lower-case letter.
   */
  predicate IsWordCharacter(ch: CodeUnit): (r: bool)
    ensures r <==> LowerA <= ch | 0x20 <= LowerZ
  {
    (LowerA <= ch <= LowerZ) || (UpperA <= ch <= UpperZ)
  }

  /** Separators are looked up in a fixed table. */
  predicate IsSeparatorCharacter(ch: CodeUnit): (r: bool)
    ensures r <==> ch == Space || ch == CarriageReturn || ch == LineFeed
  {
    ch in ValidSeparators
  }

  /** The tokenizer the program wires into its counter. */
  const Default: Tokenizer := Tokenizer(IsWordCharacter, IsSeparatorCharacter)

  /** No character is both, so the counter's test order never matters with this tokenizer. */
  lemma WordAndSeparatorDisjoint(ch: CodeUnit)
    ensures !(IsWordCharacter(ch) && IsSeparatorCharacter(ch))
  {
  }

  /** Tab, digits and ASCII punctuation are neither words nor separators: the counter rejects them. */
  lemma NonLettersRejected(ch: CodeUnit)
    requires ch == Tab || 0x21 <= ch <= 0x40 || 0x5B <= ch <= 0x60 || 0x7B <= ch <= 0x7E
    ensures !Default.Accepts(ch)
  {
  }

  /**
   * Setting bit 0x20 of a word character yields its lower-case letter, so the
   * vowel matcher's bit trick is a true case fold on every word.
   */
  lemma WordCharacterFoldsToLowerCase(ch: CodeUnit)
    requires IsWordCharacter(ch)
    ensures LowerA <= ch | 0x20 <= LowerZ
    ensures LowerA <= ch <= LowerZ ==> ch | 0x20 == ch
    ensures UpperA <= ch <= UpperZ ==> ch | 0x20 == ch + 0x20
  {
  }
}
