/** The default word matcher: words made of English vowels only, in either case. */
module VowelOnlyWordMatcher {
  import opened Abstractions

  /** The lower-case vowels, in the order of the lookup table. */
  const EnglishVowels: seq<CodeUnit> := [0x61, 0x6F, 0x65, 0x69, 0x75]

  /** 'a', 'e', 'i', 'o', 'u' and 'A', 'E', 'I', 'O', 'U'. */
  const AnyCaseVowels: seq<CodeUnit> := [0x61, 0x65, 0x69, 0x6F, 0x75, 0x41, 0x45, 0x49, 0x4F, 0x55]

  /** The per-character test: lower-case by setting bit 0x20, then look the result up. */
  predicate FoldsToVowel(ch: CodeUnit) {
    (ch | 0x20) in EnglishVowels
  }

  /** The specification of Matches: every character folds to a vowel. */
  predicate IsVowelOnly(word: seq<CodeUnit>) {
    forall i :: 0 <= i < |word| ==> FoldsToVowel(word[i])
  }

  /** The matcher the program wires into its counter. */
  const Default: WordMatcher := WordMatcher(IsVowelOnly)

  /** Matches, as the loop with an early return that the matcher runs. */
  method Matches(word: seq<CodeUnit>) returns (r: bool)
    ensures r <==> IsVowelOnly(word)
  {
    var i := 0;
    while i < |word|
      invariant 0 <= i <= |word|
      invariant forall j :: 0 <= j < i ==> FoldsToVowel(word[j])
    {
      if (word[i] | 0x20) !in EnglishVowels {
        return false;
      }
      i := i + 1;
    }
    return true;
  }

  /** Only a character and the one 0x20 below it fold to a given lower-case vowel. */
  lemma FoldsToVowelIffVowel(ch: CodeUnit)
    ensures FoldsToVowel(ch) <==> ch in AnyCaseVowels
  {
  }

  /** So a word matches exactly when it is spelled with the ten vowel letters. */
  lemma VowelOnlyIffVowelLetters(word: seq<CodeUnit>)
    ensures IsVowelOnly(word) <==> forall i :: 0 <= i < |word| ==> word[i] in AnyCaseVowels
  {
    forall i | 0 <= i < |word| {
      FoldsToVowelIffVowel(word[i]);
    }
  }

  /** Matching distributes over concatenation, as the per-character loop implies. */
  lemma VowelOnlyConcat(u: seq<CodeUnit>, v: seq<CodeUnit>)
    ensures IsVowelOnly(u + v) <==> IsVowelOnly(u) && IsVowelOnly(v)
  {
    if IsVowelOnly(u + v) {
      forall i | 0 <= i < |u| ensures FoldsToVowel(u[i]) {
        assert (u + v)[i] == u[i];
      }
      forall i | 0 <= i < |v| ensures FoldsToVowel(v[i]) {
        assert (u + v)[|u| + i] == v[i];
      }
    }
    if IsVowelOnly(u) && IsVowelOnly(v) {
      forall i | 0 <= i < |u + v| ensures FoldsToVowel((u + v)[i]) {
        if i < |u| { assert (u + v)[i] == u[i]; } else { assert (u + v)[i] == v[i - |u|]; }
      }
    }
  }

  /** One character outside the vowels, wherever it stands, makes the word fail. */
  lemma NonVowelSpoils(u: seq<CodeUnit>, ch: CodeUnit, v: seq<CodeUnit>)
    requires ch !in AnyCaseVowels
    ensures !IsVowelOnly(u + [ch] + v)
  {
    FoldsToVowelIffVowel(ch);
    assert (u + [ch] + v)[|u|] == ch;
  }

  /** The empty word matches and length plays no part: n copies of 'a' match. */
  lemma RepeatedVowelMatches(n: nat)
    ensures IsVowelOnly([])
    ensures IsVowelOnly(seq(n, _ => 0x61 as CodeUnit))
  {
  }
}
