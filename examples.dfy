/**
 * Concrete runs of the counter with the program's own tokenizer and matcher,
 * including one that shows what a failed call leaves behind for the next.
 */
module Examples {
  import opened Abstractions
  import opened StreamWords
  import opened WordCounting
  import InputTokenizer
  import VowelOnlyWordMatcher

  const A: CodeUnit := 0x61
  const E: CodeUnit := 0x65
  const B: CodeUnit := 0x62
  const Bang: CodeUnit := 0x21
  const One: CodeUnit := 0x31

  /** "ae ba e": two vowel-only words and one other. */
  const Mixed: seq<CodeUnit> := [A, E, InputTokenizer.Space, B, A, InputTokenizer.Space, E]

  lemma MixedWords()
    ensures Words(InputTokenizer.Default, Mixed) == [[A, E], [B, A], [E]]
  {
    var tok := InputTokenizer.Default;
    WordsAroundSeparator(tok, [A, E], InputTokenizer.Space, [B, A, InputTokenizer.Space, E]);
    WordsAroundSeparator(tok, [B, A], InputTokenizer.Space, [E]);
    assert [A, E] + [InputTokenizer.Space] + [B, A, InputTokenizer.Space, E] == Mixed;
    assert [B, A] + [InputTokenizer.Space] + [E] == [B, A, InputTokenizer.Space, E];
    SingleRunIsOneWord(tok, [A, E]);
    SingleRunIsOneWord(tok, [B, A]);
    SingleRunIsOneWord(tok, [E]);
  }

  lemma MixedMatches()
    ensures VowelOnlyWordMatcher.Default.Matches([A, E])
    ensures !VowelOnlyWordMatcher.Default.Matches([B, A])
    ensures VowelOnlyWordMatcher.Default.Matches([E])
  {
    VowelOnlyWordMatcher.NonVowelSpoils([], B, [A]);
    assert [] + [B] + [A] == [B, A];
  }

  lemma MixedCount()
    ensures CountMatching(VowelOnlyWordMatcher.Default, [[A, E], [B, A], [E]]) == 2
  {
    MixedMatches();
    CountTwoOfThree(VowelOnlyWordMatcher.Default, [A, E], [B, A], [E]);
  }

  lemma CountTwoOfThree(m: WordMatcher, x: seq<CodeUnit>, y: seq<CodeUnit>, z: seq<CodeUnit>)
    requires m.Matches(x) && !m.Matches(y) && m.Matches(z)
    ensures CountMatching(m, [x, y, z]) == 2
  {
    var xs: seq<seq<CodeUnit>> := [x];
    var xys := xs + [y];
    assert xs[..0] == [];
    assert xys[..1] == xs;
    assert (xys + [z])[..2] == xys;
    assert CountMatching(m, xs) == 1;
    assert CountMatching(m, xys) == 1;
    assert xys + [z] == [x, y, z];
  }

  lemma MixedExpected()
    ensures Expected(InputTokenizer.Default, VowelOnlyWordMatcher.Default, [] + Flatten([Mixed])) == Counted(2)
  {
    assert [] + Flatten([Mixed]) == Mixed;
    AllAcceptedFromEach(InputTokenizer.Default, Mixed);
    MixedWords();
    MixedCount();
  }

  /** Two vowel-only words and one other: two matches. */
  method VowelWordsCounted() returns (r: Outcome)
    ensures r == Counted(2)
  {
    var counter := new WordCounter(InputTokenizer.Default, VowelOnlyWordMatcher.Default);
    r := counter.Count([Mixed]);
    MixedExpected();
  }

  // ---------------------------------------------------------------------------
  // Words joined by spaces, with a tokenizer for lower-case letters and spaces
  // and a matcher that accepts only "hello".

  /**
   * However the text is cut into blocks, words joined by a separator are
   * counted by the matcher, and each of them is handed to it exactly once,
   * in order.
   */
  method JoinedWordsCounted(tok: Tokenizer, m: WordMatcher, ws: seq<seq<CodeUnit>>, sep: CodeUnit,
                            input: seq<seq<CodeUnit>>) returns (r: Outcome, counter: WordCounter)
    requires IsBlockStream(input) && Flatten(input) == Join(ws, sep)
    requires tok.IsSeparatorCharacter(sep) && !tok.IsWordCharacter(sep) && AllProperWords(tok, ws)
    ensures r == Counted(CountMatching(m, ws)) && counter.matched == ws
  {
    counter := new WordCounter(tok, m);
    r := counter.Count(input);
    assert [] + Flatten(input) == Flatten(input);
    JoinExpected(tok, m, ws, sep);
    WordsOfJoin(tok, ws, sep);
  }

  const Hello: seq<CodeUnit> := [0x68, 0x65, 0x6C, 0x6C, 0x6F]
  const DoesNotMatch: seq<CodeUnit> := [0x64, 0x6F, 0x65, 0x73, 0x6E, 0x6F, 0x74, 0x6D, 0x61, 0x74, 0x63, 0x68]

  const LowerCaseAndSpace: Tokenizer := Tokenizer((ch: CodeUnit) => 0x61 <= ch <= 0x7A, (ch: CodeUnit) => ch == InputTokenizer.Space)
  const HelloOnly: WordMatcher := WordMatcher((w: seq<CodeUnit>) => w == Hello)

  /** x, then y and x by turns: n words in all. */
  function Alternating(x: seq<CodeUnit>, y: seq<CodeUnit>, n: nat): seq<seq<CodeUnit>> {
    seq(n, i => if i % 2 == 0 then x else y)
  }

  lemma TestWords()
    ensures Hello != [] && AllWord(LowerCaseAndSpace, Hello)
    ensures DoesNotMatch != [] && AllWord(LowerCaseAndSpace, DoesNotMatch)
    ensures HelloOnly.Matches(Hello) && !HelloOnly.Matches(DoesNotMatch)
  {
    AllWordFromEach(LowerCaseAndSpace, Hello);
    AllWordFromEach(LowerCaseAndSpace, DoesNotMatch);
  }

  lemma RepeatProper(w: seq<CodeUnit>, n: nat)
    requires w != [] && AllWord(LowerCaseAndSpace, w)
    ensures AllProperWords(LowerCaseAndSpace, Repeat(w, n))
  {
  }

  lemma AlternatingProper(n: nat)
    ensures AllProperWords(LowerCaseAndSpace, Alternating(DoesNotMatch, Hello, n))
  {
    TestWords();
  }

  lemma AlternatingSnoc(x: seq<CodeUnit>, y: seq<CodeUnit>, n: nat)
    ensures Alternating(x, y, n + 1) == Alternating(x, y, n) + [if n % 2 == 0 then x else y]
  {
  }

  /** When the matcher accepts y and not x, Alternating(x, y, 2 * k) has k matches. */
  lemma {:induction false} AlternatingCount(m: WordMatcher, x: seq<CodeUnit>, y: seq<CodeUnit>, k: nat)
    requires !m.Matches(x) && m.Matches(y)
    ensures CountMatching(m, Alternating(x, y, 2 * k)) == k
  {
    if k > 0 {
      var n := 2 * (k - 1);
      assert n % 2 == 0 && (n + 1) % 2 == 1 && n + 2 == 2 * k;
      AlternatingCount(m, x, y, k - 1);
      AlternatingSnoc(x, y, n);
      AlternatingSnoc(x, y, n + 1);
      CountMatchingSnoc(m, Alternating(x, y, n), x);
      CountMatchingSnoc(m, Alternating(x, y, n + 1), y);
    }
  }

  /** One hundred "hello" joined by spaces: 100 matches, one matcher call per word. */
  method HundredMatching(input: seq<seq<CodeUnit>>) returns (r: Outcome, counter: WordCounter)
    requires IsBlockStream(input) && Flatten(input) == Join(Repeat(Hello, 100), InputTokenizer.Space)
    ensures r == Counted(100) && counter.matched == Repeat(Hello, 100)
  {
    TestWords();
    RepeatProper(Hello, 100);
    r, counter := JoinedWordsCounted(LowerCaseAndSpace, HelloOnly, Repeat(Hello, 100), InputTokenizer.Space, input);
    CountMatchingRepeat(HelloOnly, Hello, 100);
  }

  /** One hundred "doesnotmatch" joined by spaces: no match, one matcher call per word. */
  method HundredNotMatching(input: seq<seq<CodeUnit>>) returns (r: Outcome, counter: WordCounter)
    requires IsBlockStream(input) && Flatten(input) == Join(Repeat(DoesNotMatch, 100), InputTokenizer.Space)
    ensures r == Counted(0) && counter.matched == Repeat(DoesNotMatch, 100)
  {
    TestWords();
    RepeatProper(DoesNotMatch, 100);
    r, counter := JoinedWordsCounted(LowerCaseAndSpace, HelloOnly, Repeat(DoesNotMatch, 100), InputTokenizer.Space, input);
    CountMatchingRepeat(HelloOnly, DoesNotMatch, 100);
  }

  /** 102 words, "doesnotmatch" and "hello" by turns: 51 matches, one matcher call per word. */
  method AlternatingCounted(input: seq<seq<CodeUnit>>) returns (r: Outcome, counter: WordCounter)
    requires IsBlockStream(input) && Flatten(input) == Join(Alternating(DoesNotMatch, Hello, 102), InputTokenizer.Space)
    ensures r == Counted(51) && counter.matched == Alternating(DoesNotMatch, Hello, 102)
  {
    AlternatingProper(102);
    r, counter := JoinedWordsCounted(LowerCaseAndSpace, HelloOnly, Alternating(DoesNotMatch, Hello, 102), InputTokenizer.Space, input);
    TestWords();
    AlternatingCount(HelloOnly, DoesNotMatch, Hello, 51);
  }

  /** "aa" then "a ": a word cut by the end of a block is carried over and matched once, whole. */
  const Split: seq<seq<CodeUnit>> := [[A, A], [A, InputTokenizer.Space]]

  lemma SplitText()
    ensures [] + Flatten(Split) == [A, A, A, InputTokenizer.Space]
  {
    FlattenSnoc([[A, A]], [A, InputTokenizer.Space]);
    assert [[A, A]] + [[A, InputTokenizer.Space]] == Split;
    assert Flatten([[A, A]]) == [A, A];
  }

  lemma SplitWords()
    ensures Words(InputTokenizer.Default, [A, A, A, InputTokenizer.Space]) == [[A, A, A]]
  {
    var tok := InputTokenizer.Default;
    WordsAroundSeparator(tok, [A, A, A], InputTokenizer.Space, []);
    assert [A, A, A] + [InputTokenizer.Space] + [] == [A, A, A, InputTokenizer.Space];
    AllWordFromEach(tok, [A, A, A]);
    SingleRunIsOneWord(tok, [A, A, A]);
    assert Words(tok, []) == [];
  }

  lemma AcrossBlocksExpected()
    ensures Expected(InputTokenizer.Default, VowelOnlyWordMatcher.Default, [] + Flatten(Split)) == Counted(1)
  {
    var tok := InputTokenizer.Default;
    SplitText();
    AllAcceptedFromEach(tok, [A, A, A, InputTokenizer.Space]);
    SplitWords();
    SplitCount();
  }

  lemma SplitCount()
    ensures CountMatching(VowelOnlyWordMatcher.Default, [[A, A, A]]) == 1
  {
    assert VowelOnlyWordMatcher.Default.Matches([A, A, A]);
    CountOne(VowelOnlyWordMatcher.Default, [A, A, A]);
  }

  lemma CountOne(m: WordMatcher, w: seq<CodeUnit>)
    requires m.Matches(w)
    ensures CountMatching(m, [w]) == 1
  {
    assert [w][..0] == [];
  }

  method WordAcrossBlocks() returns (r: Outcome)
    ensures r == Counted(1)
  {
    var counter := new WordCounter(InputTokenizer.Default, VowelOnlyWordMatcher.Default);
    r := counter.Count(Split);
    AcrossBlocksExpected();
  }

  /**
   * However many blocks a run of 'a' spans, it is one word and the matcher
   * sees it once.
   */
  method LongWordCountedOnce(input: seq<seq<CodeUnit>>) returns (r: Outcome)
    requires IsBlockStream(input) && |input| > 0
    requires forall k :: 0 <= k < |Flatten(input)| ==> Flatten(input)[k] == A
    ensures r == Counted(1)
  {
    var counter := new WordCounter(InputTokenizer.Default, VowelOnlyWordMatcher.Default);
    r := counter.Count(input);
    LongWordExpected(input);
  }

  lemma LongWordExpected(input: seq<seq<CodeUnit>>)
    requires IsBlockStream(input) && |input| > 0
    requires forall k :: 0 <= k < |Flatten(input)| ==> Flatten(input)[k] == A
    ensures Expected(InputTokenizer.Default, VowelOnlyWordMatcher.Default, [] + Flatten(input)) == Counted(1)
  {
    var s := Flatten(input);
    assert [] + s == s;
    FlattenSplit(input, 0);
    RunOfAExpected(s);
  }

  lemma RunOfAExpected(s: seq<CodeUnit>)
    requires |s| > 0 && forall k :: 0 <= k < |s| ==> s[k] == A
    ensures Expected(InputTokenizer.Default, VowelOnlyWordMatcher.Default, s) == Counted(1)
  {
    SingleWordExpected(InputTokenizer.Default, VowelOnlyWordMatcher.Default, s);
    assert VowelOnlyWordMatcher.Default.Matches(s);
  }

  /** A digit inside a word stops the count and is reported. */
  lemma DigitExpected()
    ensures Expected(InputTokenizer.Default, VowelOnlyWordMatcher.Default, [] + Flatten([[A, One, B]])) == InvalidCharacter(One)
  {
    var s := [A, One, B];
    assert [] + Flatten([[A, One, B]]) == s;
    AllAcceptedFromEach(InputTokenizer.Default, s[..1]);
    FirstRejectedAt(InputTokenizer.Default, s, 1);
  }

  method DigitRejected() returns (r: Outcome)
    ensures r == InvalidCharacter(One)
  {
    var counter := new WordCounter(InputTokenizer.Default, VowelOnlyWordMatcher.Default);
    r := counter.Count([[A, One, B]]);
    DigitExpected();
  }

  /** An empty stream has no words. */
  method EmptyInput() returns (r: Outcome)
    ensures r == Counted(0)
  {
    var counter := new WordCounter(InputTokenizer.Default, VowelOnlyWordMatcher.Default);
    r := counter.Count([]);
    assert [] + Flatten([]) == [];
  }

  /**
   * The word test comes first: with a tokenizer for which every character is
   * both a word character and a separator, the whole stream is one word.
   */
  method WordTestFirst(matcher: WordMatcher, input: seq<seq<CodeUnit>>) returns (r: Outcome)
    requires IsBlockStream(input) && |input| > 0
    ensures r == Counted(if matcher.Matches(Flatten(input)) then 1 else 0)
  {
    var both := Tokenizer(_ => true, _ => true);
    var counter := new WordCounter(both, matcher);
    r := counter.Count(input);
    var s := Flatten(input);
    assert [] + s == s;
    FlattenSplit(input, 0);
    SingleWordExpected(both, matcher, s);
  }

  /**
   * How the text is cut into blocks does not matter: two calls that start
   * from an empty overflow buffer on the same text agree, whatever happened
   * before them.
   */
  method BlockingIrrelevant(counter: WordCounter, input: seq<seq<CodeUnit>>, other: seq<seq<CodeUnit>>)
    returns (first: Outcome, second: Outcome)
    requires IsBlockStream(input) && IsBlockStream(other) && Flatten(input) == Flatten(other)
    modifies counter
    ensures first == second
  {
    first := counter.CountFromReset(input);
    second := counter.CountFromReset(other);
  }

  /** A tokenizer that accepts nothing rejects the first character of any non-empty stream. */
  method NothingAccepted(input: seq<seq<CodeUnit>>) returns (r: Outcome)
    requires IsBlockStream(input) && |input| > 0
    ensures r == InvalidCharacter(input[0][0])
  {
    var none := Tokenizer(_ => false, _ => false);
    var counter := new WordCounter(none, VowelOnlyWordMatcher.Default);
    r := counter.Count(input);
    var s := Flatten(input);
    FlattenSplit(input, 0);
    assert [] + s == s && s[0] == input[0][0];
    assert s[..0] == [];
    FirstRejectedAt(none, s, 0);
  }

  // ---------------------------------------------------------------------------
  // Reuse of a counter after a rejected stream.

  /** A full block of 1024 'b'. */
  const LongB: seq<CodeUnit> := seq(BufferSize, _ => B)

  /**
   * A full block of 'b', then "!": the word of 'b' is carried over the block
   * boundary and then the stream fails.
   */
  const Failing: seq<seq<CodeUnit>> := [LongB, [Bang]]

  lemma LongBIsWord()
    ensures AllWord(InputTokenizer.Default, LongB) && AllAccepted(InputTokenizer.Default, LongB)
  {
    AllWordFromEach(InputTokenizer.Default, LongB);
    AllWordAccepted(InputTokenizer.Default, LongB);
  }

  lemma FailingOutcome()
    ensures IsBlockStream(Failing)
    ensures !AllAccepted(InputTokenizer.Default, Flatten(Failing))
    ensures Expected(InputTokenizer.Default, VowelOnlyWordMatcher.Default, [] + Flatten(Failing)) == InvalidCharacter(Bang)
    ensures FailingBlock(InputTokenizer.Default, Failing) == 1
    ensures FirstRejected(InputTokenizer.Default, Failing[1]) == 0
    ensures AllWord(InputTokenizer.Default, Failing[1][..0])
    ensures Open(InputTokenizer.Default, [] + Flatten(Failing[..1])) == LongB
  {
    var tok := InputTokenizer.Default;
    assert Failing[..1] == [LongB];
    FlattenSnoc([], LongB);
    assert [] + Flatten([LongB]) == LongB;
    LongBIsWord();
    assert Failing[1][..0] == [];
    FirstRejectedInStream(tok, [], Failing, 1, 0);
    ScanAllWord(tok, Scan([], []), LongB);
  }

  /** The left-over 'b' word followed by "a" reads as one word ending in 'a'. */
  lemma LeftOverExpected()
    ensures Expected(InputTokenizer.Default, VowelOnlyWordMatcher.Default, LongB + Flatten([[A]])) == Counted(0)
  {
    var s := LongB + [A];
    assert LongB + Flatten([[A]]) == s;
    SingleWordExpected(InputTokenizer.Default, VowelOnlyWordMatcher.Default, s);
    VowelOnlyWordMatcher.NonVowelSpoils([], B, s[1..]);
    assert [] + [B] + s[1..] == s;
  }

  /**
   * A counter whose previous call failed in the middle of a word still holds
   * that word's prefix, and the next call counts "a" as the end of that word:
   * no match, where a fresh counter finds one.
   */
  method ReuseAfterFailure() returns (first: Outcome, second: Outcome)
    ensures first == InvalidCharacter(Bang)
    ensures second == Counted(0)
  {
    var counter := new WordCounter(InputTokenizer.Default, VowelOnlyWordMatcher.Default);
    first := counter.Count(Failing);
    FailingOutcome();
    second := counter.Count([[A]]);
    LeftOverExpected();
  }

  /** Emptying the overflow buffer first makes the second call independent of the first. */
  method ResetAfterFailure() returns (first: Outcome, second: Outcome)
    ensures first == InvalidCharacter(Bang)
    ensures second == Counted(1)
  {
    var counter := new WordCounter(InputTokenizer.Default, VowelOnlyWordMatcher.Default);
    first := counter.Count(Failing);
    FailingOutcome();
    second := counter.CountFromReset([[A]]);
    assert Flatten([[A]]) == [A];
    RunOfAExpected([A]);
  }

  // ---------------------------------------------------------------------------
  // The vowel matcher on its own.

  const LowerVowels: seq<CodeUnit> := [0x61, 0x6F, 0x65, 0x69, 0x75]
  const UpperVowels: seq<CodeUnit> := [0x41, 0x4F, 0x45, 0x49, 0x55]
  const ThousandA: seq<CodeUnit> := seq(1000, _ => A)
  const OtherWord: seq<CodeUnit> := [0x4F, 0x74, 0x48, 0x65, 0x52, 0x20, 0x77, 0x4F, 0x72, 0x44]
  const Tabbed: seq<CodeUnit> := [0x09, 0x6F, 0x65, 0x75, 0x69, 0x00]

  lemma VowelCases()
    ensures VowelOnlyWordMatcher.IsVowelOnly(LowerVowels)
    ensures VowelOnlyWordMatcher.IsVowelOnly(UpperVowels)
    ensures VowelOnlyWordMatcher.IsVowelOnly(ThousandA)
  {
    VowelOnlyWordMatcher.VowelOnlyIffVowelLetters(LowerVowels);
    VowelOnlyWordMatcher.VowelOnlyIffVowelLetters(UpperVowels);
    assert VowelOnlyWordMatcher.FoldsToVowel(A);
  }

  lemma NonVowelCases()
    ensures !VowelOnlyWordMatcher.IsVowelOnly(Hello)
    ensures !VowelOnlyWordMatcher.IsVowelOnly(OtherWord)
    ensures !VowelOnlyWordMatcher.IsVowelOnly(Tabbed)
  {
    assert !VowelOnlyWordMatcher.FoldsToVowel(Hello[0]);
    assert !VowelOnlyWordMatcher.FoldsToVowel(OtherWord[1]);
    assert !VowelOnlyWordMatcher.FoldsToVowel(Tabbed[0]);
  }

  /**
   * "aoeiu", "AOEIU" and 1000 'a' match; "hello", "OtHeR wOrD" and
   * "\toeui\0" do not.
   */
  method MatcherCases() returns (lower: bool, upper: bool, many: bool, hello: bool, other: bool, control: bool)
    ensures lower && upper && many && !hello && !other && !control
  {
    lower := VowelOnlyWordMatcher.Matches(LowerVowels);
    upper := VowelOnlyWordMatcher.Matches(UpperVowels);
    many := VowelOnlyWordMatcher.Matches(ThousandA);
    hello := VowelOnlyWordMatcher.Matches(Hello);
    other := VowelOnlyWordMatcher.Matches(OtherWord);
    control := VowelOnlyWordMatcher.Matches(Tabbed);
    VowelCases();
    NonVowelCases();
  }
}
