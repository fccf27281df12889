# Vowelette word counter in Dafny

Vowelette counts the words of a text file that consist of vowels only. This project models its core:

- **`WordCounter`** reads the file one block of at most 1024 characters at a time into a fixed buffer. Within each block it tracks one open word span. It hands every finished word to a word matcher. A word cut off by the end of a block goes into an overflow buffer, so that it can be matched whole later. A character that is neither a word character nor a separator stops the count.
- **`InputTokenizer`** decides which characters form words (the English letters) and which separate them (space, CR, LF).
- **`VowelOnlyWordMatcher`** accepts a word when each character, with bit 0x20 set, is one of `a o e i u`.

The files:

- `abstractions.dfy` holds the two collaborator interfaces. Each is a record of pure function values, and a character is a 16-bit code unit.
- `input_tokenizer.dfy` and `vowel_only_word_matcher.dfy` hold the two default collaborators.
- `stream_words.dfy` states what the counter should compute on the whole text. The text is scanned left to right into closed words and one open run (`Words`), and the result is `Expected`. `Runs` is an independent definition of words as maximal runs of word characters, and `WordsAreRuns` proves the two agree.
- `word_counter.dfy` holds the class `WordCounter`:
  - fields `count` and `allocatedBuffer`;
  - a ghost log `matched` of the words handed to the matcher;
  - the block array `stackBuffer` in `Count`, filled by `ReadBlock`.

  `Count` is proved to return `Expected` of the concatenated blocks. The concatenation starts with whatever the overflow buffer held on entry. For a fresh counter the result therefore does not depend on how the text is cut into blocks.
- `examples.dfy` re-states the counter's test data and the matcher's test cases as verified methods, together with a few further scenarios and the overflow-buffer leak described below.

The input file is a sequence of blocks. Each block holds 1 to 1024 characters, and a read of 0 means end of stream. Any block length in that range is allowed, which includes the full blocks a reader delivers before the last one. The `ArgumentException` becomes the outcome `InvalidCharacter(ch)`.

## Model

| member | source | states |
|---|---|---|
| `InputTokenizer.IsWordCharacter` | src/Vowelette/InputTokenizer.cs:17 | A character is a word character (`a`-`z` or `A`-`Z`) exactly when setting bit 0x20 turns it into a lower-case letter. |
| `InputTokenizer.IsSeparatorCharacter` | src/Vowelette/InputTokenizer.cs:19-21 | A character is a separator exactly when it is space, CR or LF. |
| `InputTokenizer.WordAndSeparatorDisjoint` | src/Vowelette/InputTokenizer.cs:17-21 | No character is both a word character and a separator. |
| `InputTokenizer.NonLettersRejected` | src/Vowelette/InputTokenizer.cs:17-21 | Tab, digits and ASCII punctuation are neither, so the default tokenizer does not accept them. |
| `InputTokenizer.WordCharacterFoldsToLowerCase` | src/Vowelette/InputTokenizer.cs:17 | Setting bit 0x20 of any word character gives a lower-case letter. It leaves lower case unchanged and maps upper case to lower case, so the matcher's bit trick is a real case fold on words. |
| `VowelOnlyWordMatcher.Matches` | src/Vowelette/VowelOnlyWordMatcher.cs:14-25 | The loop with early return yields true exactly when every character, with bit 0x20 set, is in the vowel table. |
| `VowelOnlyWordMatcher.FoldsToVowelIffVowel` | src/Vowelette/VowelOnlyWordMatcher.cs:21 | A character folds to a vowel exactly when it is one of `aeiouAEIOU`. |
| `VowelOnlyWordMatcher.VowelOnlyIffVowelLetters` | src/Vowelette/VowelOnlyWordMatcher.cs:18-24 | A word matches exactly when all its characters are among the ten vowel letters. |
| `VowelOnlyWordMatcher.VowelOnlyConcat` | src/Vowelette/VowelOnlyWordMatcher.cs:18-24 | `u + v` matches exactly when both `u` and `v` match. |
| `VowelOnlyWordMatcher.NonVowelSpoils` | src/Vowelette/VowelOnlyWordMatcher.cs:21 | One non-vowel character anywhere in a word makes the match fail. |
| `VowelOnlyWordMatcher.RepeatedVowelMatches` | src/Vowelette/VowelOnlyWordMatcher.cs:18-24 | The empty word matches, and so do `n` copies of `a` for every `n`. |
| `Examples.MatcherCases` | test/Vowelette.Tests/VowelOnlyWordMatcherTests.cs:9-14 | All six test cases: `aoeiu`, `AOEIU` and 1000 `a` match; `hello`, `OtHeR wOrD` and `\toeui\0` do not. |
| `StreamWords.FlattenSplit` | src/Vowelette/WordCounter.cs:64 | The stream is the blocks before block `j`, then block `j`, then the blocks after it. |
| `StreamWords.FirstRejected` | src/Vowelette/WordCounter.cs:87-90 | Gives the position of the first character the tokenizer rejects: every earlier character is accepted. |
| `StreamWords.FirstRejectedAt` | src/Vowelette/WordCounter.cs:87-90 | A rejected character with only accepted characters before it is the first one rejected. |
| `StreamWords.FailingBlock` | src/Vowelette/WordCounter.cs:64-90 | Gives the first block holding a rejected character: all blocks before it are accepted. |
| `StreamWords.FailingBlockAt` | src/Vowelette/WordCounter.cs:64-90 | The first block with a rejected character is the failing block. |
| `StreamWords.ScanAppend` | src/Vowelette/WordCounter.cs:64-98 | Scanning `s + t` is scanning `t` from the state `s` leaves. This is why blocks can be scanned one after another. |
| `StreamWords.OpenAllWord` | src/Vowelette/WordCounter.cs:93-98 | The open run, which is what the overflow buffer carries, holds only word characters. |
| `StreamWords.ScanAllWord` | src/Vowelette/WordCounter.cs:71-79 | A stretch of word characters only extends the open run. |
| `StreamWords.LeadingRun` | src/Vowelette/WordCounter.cs:71-80 | Gives the length of the longest prefix of word characters. |
| `StreamWords.WordsAreRuns` | src/Vowelette/WordCounter.cs:64-102 | The words the scan finds are exactly the maximal runs of word characters, in order. |
| `StreamWords.RunsAreWords` | src/Vowelette/WordCounter.cs:124 | Every run is non-empty and made of word characters, so the matcher never sees an empty word. |
| `StreamWords.SeparatorsOnlyHaveNoWords` | src/Vowelette/WordCounter.cs:81-86 | Text without word characters has no words, so leading or repeated separators cause no matcher call. |
| `StreamWords.SingleRunIsOneWord` | src/Vowelette/WordCounter.cs:93-102 | A non-empty run of word characters with no separator is one word, however long. |
| `StreamWords.WordsAroundSeparator` | src/Vowelette/WordCounter.cs:81-86 | A separator splits the words into those before it and those after it. |
| `StreamWords.CountMatching` | src/Vowelette/WordCounter.cs:124-127 | The number of accepted words never exceeds the number of words. |
| `StreamWords.CountMatchingConcat` | src/Vowelette/WordCounter.cs:124-127 | Counting matches distributes over concatenation of word lists. |
| `StreamWords.ExpectedCountsRuns` | src/Vowelette/WordCounter.cs:56-105 | On accepted text the result is the number of maximal runs of word characters that the matcher accepts, and every word is non-empty. |
| `StreamWords.WordsOfJoin` | src/Vowelette/WordCounter.cs:81-86 | Non-empty words of word characters, joined by a non-word character, give back exactly those words. |
| `StreamWords.JoinAccepted` | src/Vowelette/WordCounter.cs:71-90 | Such words joined by a separator are accepted text. |
| `StreamWords.JoinExpected` | src/Vowelette/WordCounter.cs:56-105 | Counting such words joined by a separator gives the number of them the matcher accepts. |
| `StreamWords.CountMatchingRepeat` | src/Vowelette/WordCounter.cs:124-127 | `n` copies of a word count `n` if the matcher accepts it and 0 otherwise. |
| `StreamWords.SingleWordExpected` | src/Vowelette/WordCounter.cs:93-102 | Text made only of word characters gives 1 if the matcher accepts it and 0 otherwise. |
| `WordCounting.ReadBlock` | src/Vowelette/WordCounter.cs:61-64 | Copies the next block into the front of the 1024-character buffer and returns its length, or 0 at end of stream. |
| `WordCounting.WordCounter.constructor` | src/Vowelette/WordCounter.cs:43-48 | Stores the tokenizer and the matcher; the count and the overflow buffer start empty. |
| `WordCounting.WordCounter.MatchWord` | src/Vowelette/WordCounter.cs:113-128 | The resolved word is the overflow buffer followed by the span, and the buffer is then empty. A non-empty resolved word is logged once, and the count grows by one exactly when the matcher accepts it. An empty word is neither logged nor counted. |
| `WordCounting.WordCounter.ScanBlock` | src/Vowelette/WordCounter.cs:66-98 | On a fully accepted block, the log and the overflow buffer become the closed words and open run of the scan continued over the block. At a rejected character it returns that character and its position, with only accepted characters before it. The log then holds the words closed up to that point, and the buffer survives only if no separator came first. |
| `WordCounting.InBlockWord` | src/Vowelette/WordCounter.cs:71-80 | A word character opens a span at `i` when none is open, or extends the open one. The span stays inside the characters read. |
| `WordCounting.InBlockSeparator` | src/Vowelette/WordCounter.cs:81-86 | A separator closes the buffer followed by the span as one word, if non-empty, and resets the span. |
| `WordCounting.InBlockEnd` | src/Vowelette/WordCounter.cs:93-98 | At the end of a block the open run is the buffer followed by the span, and an empty span leaves it as the buffer. |
| `WordCounting.BlockDone` | src/Vowelette/WordCounter.cs:64-99 | After a fully accepted block the scan state is that of the text read so far, and the carried run holds only word characters. |
| `WordCounting.FirstRejectedInStream` | src/Vowelette/WordCounter.cs:64-90 | The first character rejected inside block `j` is the first one rejected in the whole stream, and `j` is the failing block. |
| `WordCounting.RejectedAt` | src/Vowelette/WordCounter.cs:87-90 | Stopping at a rejected character yields `InvalidCharacter` of that character, the intended outcome of the whole stream. |
| `WordCounting.StreamEnd` | src/Vowelette/WordCounter.cs:101-104 | At end of stream the words are the closed ones plus the open run if non-empty, and the outcome counts those the matcher accepts. |
| `WordCounting.WordCounter.Count` | src/Vowelette/WordCounter.cs:56-105 | The result is `Expected` of the overflow buffer's entry contents followed by all blocks concatenated. It fails exactly when some character is neither a word character nor a separator. On success the count is the result, the buffer is empty, and each word was handed to the matcher exactly once, in order. On failure the log holds the words closed before the rejected character. The buffer keeps the run carried into the failing block only if no separator comes before that character in that block, and is empty otherwise; it never holds the failing block's own span. |
| `WordCounting.WordCounter.CountFromReset` | src/Vowelette/WordCounter.cs:56-58 | Counting from an emptied overflow buffer gives `Expected` of the concatenated blocks alone, whatever a previous call left. |
| `Examples.VowelWordsCounted` | src/Vowelette/WordCounter.cs:56-105 | `ae ba e`, with the program's own tokenizer and matcher, gives 2 matches. |
| `Examples.JoinedWordsCounted` | test/Vowelette.Tests/WordCouterTests.cs:55-71 | Words joined by a separator, in any blocks, give the number of them the matcher accepts, and the matcher is handed each word exactly once, in order. |
| `Examples.HundredMatching` | test/Vowelette.Tests/WordCouterTests.cs:39 | With lower-case words, space separators and a matcher for `hello` only: 100 `hello` joined by spaces give 100, with 100 matcher calls, all on `hello`. |
| `Examples.HundredNotMatching` | test/Vowelette.Tests/WordCouterTests.cs:41 | 100 `doesnotmatch` joined by spaces give 0, with 100 matcher calls. |
| `Examples.AlternatingCounted` | test/Vowelette.Tests/WordCouterTests.cs:43-52 | `doesnotmatch`, then 50 times `hello doesnotmatch`, then `hello` gives 51, with 102 matcher calls in the order of the text. |
| `Examples.AlternatingCount` | test/Vowelette.Tests/WordCouterTests.cs:43-52 | When the matcher accepts `y` and not `x`, the list `x y x y ...` of `2k` words has `k` matches. |
| `Examples.WordAcrossBlocks` | src/Vowelette/WordCounter.cs:93-98 | `aa` then `a ` in two blocks is one word, matched once. |
| `Examples.LongWordCountedOnce` | test/Vowelette.Tests/WordCouterTests.cs:84-99 | Any non-empty stream of `a` characters, in any blocks, gives exactly 1. |
| `Examples.NothingAccepted` | test/Vowelette.Tests/WordCouterTests.cs:74-80 | With a tokenizer that accepts nothing, any non-empty stream fails on its first character. |
| `Examples.DigitRejected` | src/Vowelette/WordCounter.cs:87-90 | `a1b` fails naming `1`. |
| `Examples.EmptyInput` | src/Vowelette/WordCounter.cs:102-104 | An empty stream gives 0. |
| `Examples.WordTestFirst` | src/Vowelette/WordCounter.cs:71-81 | When every character passes both tests, the word test wins and the whole stream is one word. |
| `Examples.BlockingIrrelevant` | src/Vowelette/WordCounter.cs:56-105 | Two block streams with the same text give the same outcome. |
| `Examples.ReuseAfterFailure` | src/Vowelette/WordCounter.cs:58 | After a full block of 1024 `b` followed by a block `!` fails, a second call on `a` gives 0, because the stale run of `b` is glued onto `a`. |
| `Examples.ResetAfterFailure` | src/Vowelette/WordCounter.cs:56-58 | With the overflow buffer cleared at entry, the same second call gives 1. |

## Left out

- Opening the file, disposing the reader and the file-system abstraction are not modelled. The file is a given sequence of blocks, so a read never fails in the model. An exception thrown by the reader partway through the stream is not modelled; like the invalid-character failure, it would leave a carried word in the overflow buffer.
- `stackalloc`, `Span` and `StringBuilder` are not modelled. The block is a copy of the filled part of the array, and the overflow buffer is a sequence.
- The inner loop and the carry-over of one block are factored into the method `ScanBlock`. It works on a snapshot of the filled part of the array, not on the array itself.
- The exception and its message are not modelled. Failure is the outcome `InvalidCharacter(ch)`.
- `WordCounting.WordCounter.Count`: does not model the 64-bit `long` wrap-around of the count, which needs more than 2^63 words; the count is a `nat`.
- `FileInputValidator.cs`, `ValidationResult.cs` and `Program.cs` are not part of this model. They are path validation and console interaction.
- The tokenizer and the matcher are pure functions. A matcher with side effects, such as the mock in the tests that counts its calls, is represented instead by the ghost log `matched` of the words handed to it.
- Characters are 16-bit code units. Surrogate pairs and culture-specific case rules play no part in the source.

## Findings

`Count` resets `_count` on entry but not `_allocatedBuffer`. A call can fail while a word is carried over a block boundary, on a character that no separator precedes in its block. Such a call leaves that word's prefix in the buffer. A separator before the rejected character in the same block would have resolved and cleared the carried word. The next call on the same counter glues the prefix onto its first word. A fresh counter per run, as the console program uses, never shows it.

| source | as written | input that shows it | evidently intended | confidence | as-written member | corrected member |
|---|---|---|---|---|---|---|
| src/Vowelette/WordCounter.cs:58 | only the count is reset on entry; the overflow buffer keeps what a failed call left | first call on a full block of 1024 `b` and then a block `!` (fails on `!` with the `b` run carried), then a call on `a`: result 0 | every call counts its own file: `a` gives 1 | not executed | `Examples.ReuseAfterFailure` | `WordCounting.WordCounter.CountFromReset` |

`WordCounting.WordCounter.Count` models the code as written. Its contract states the result for whatever the buffer holds on entry. `Examples.ResetAfterFailure` shows the corrected behaviour on the same input.
