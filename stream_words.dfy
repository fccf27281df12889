/**
 * What the counter is meant to compute, stated on the whole character stream:
 * the words are the maximal runs of word characters, and the result counts
 * those the matcher accepts, or names the first character the tokenizer rejects.
 */
module StreamWords {
  import opened Abstractions

  /** The stream as one sequence: the blocks of successive reads, concatenated. */
  function Flatten(blocks: seq<seq<CodeUnit>>): seq<CodeUnit> {
    if |blocks| == 0 then [] else blocks[0] + Flatten(blocks[1..])
  }

  lemma {:induction false} FlattenSnoc(blocks: seq<seq<CodeUnit>>, b: seq<CodeUnit>)
    ensures Flatten(blocks + [b]) == Flatten(blocks) + b
  {
    if |blocks| == 0 {
      assert blocks + [b] == [b];
    } else {
      assert (blocks + [b])[1..] == blocks[1..] + [b];
      FlattenSnoc(blocks[1..], b);
    }
  }

  lemma {:induction false} FlattenSplit(blocks: seq<seq<CodeUnit>>, j: nat)
    requires j < |blocks|
    ensures Flatten(blocks) == Flatten(blocks[..j]) + blocks[j] + Flatten(blocks[j + 1..])
  {
    if j == 0 {
      assert blocks[..0] == [];
    } else {
      FlattenSplit(blocks[1..], j - 1);
      assert blocks[1..][..j - 1] == blocks[1..j];
      assert blocks[1..][j - 1] == blocks[j];
      assert blocks[1..][j..] == blocks[j + 1..];
      assert blocks[..j][1..] == blocks[1..j];
    }
  }

  /** Every character of s is a word character or a separator. */
  predicate AllAccepted(tok: Tokenizer, s: seq<CodeUnit>) {
    |s| == 0 || (AllAccepted(tok, s[..|s| - 1]) && tok.Accepts(s[|s| - 1]))
  }

  /** Every character of s is a word character. */
  predicate AllWord(tok: Tokenizer, s: seq<CodeUnit>) {
    |s| == 0 || (AllWord(tok, s[..|s| - 1]) && tok.IsWordCharacter(s[|s| - 1]))
  }

  lemma AllAcceptedSnoc(tok: Tokenizer, s: seq<CodeUnit>, ch: CodeUnit)
    ensures AllAccepted(tok, s + [ch]) <==> AllAccepted(tok, s) && tok.Accepts(ch)
  {
    assert (s + [ch])[..|s|] == s;
  }

  lemma AllWordSnoc(tok: Tokenizer, s: seq<CodeUnit>, ch: CodeUnit)
    ensures AllWord(tok, s + [ch]) <==> AllWord(tok, s) && tok.IsWordCharacter(ch)
  {
    assert (s + [ch])[..|s|] == s;
  }

  lemma {:induction false} AllAcceptedConcat(tok: Tokenizer, a: seq<CodeUnit>, b: seq<CodeUnit>)
    ensures AllAccepted(tok, a + b) <==> AllAccepted(tok, a) && AllAccepted(tok, b)
    decreases |b|
  {
    if |b| == 0 {
      assert a + b == a;
    } else {
      assert (a + b)[..|a + b| - 1] == a + b[..|b| - 1];
      AllAcceptedConcat(tok, a, b[..|b| - 1]);
    }
  }

  lemma {:induction false} AllWordConcat(tok: Tokenizer, a: seq<CodeUnit>, b: seq<CodeUnit>)
    ensures AllWord(tok, a + b) <==> AllWord(tok, a) && AllWord(tok, b)
    decreases |b|
  {
    if |b| == 0 {
      assert a + b == a;
    } else {
      assert (a + b)[..|a + b| - 1] == a + b[..|b| - 1];
      AllWordConcat(tok, a, b[..|b| - 1]);
    }
  }

  /** Word characters are accepted. */
  lemma {:induction false} AllWordAccepted(tok: Tokenizer, s: seq<CodeUnit>)
    requires AllWord(tok, s)
    ensures AllAccepted(tok, s)
    decreases |s|
  {
    if |s| != 0 {
      AllWordAccepted(tok, s[..|s| - 1]);
    }
  }

  /** The recursive definition agrees with the character-by-character reading. */
  lemma {:induction false} AllAcceptedAt(tok: Tokenizer, s: seq<CodeUnit>, k: nat)
    requires AllAccepted(tok, s) && k < |s|
    ensures tok.Accepts(s[k])
    decreases |s|
  {
    if k < |s| - 1 {
      AllAcceptedAt(tok, s[..|s| - 1], k);
    }
  }

  lemma {:induction false} AllWordAt(tok: Tokenizer, s: seq<CodeUnit>, k: nat)
    requires AllWord(tok, s) && k < |s|
    ensures tok.IsWordCharacter(s[k])
    decreases |s|
  {
    if k < |s| - 1 {
      AllWordAt(tok, s[..|s| - 1], k);
    }
  }

  /** Conversely, a sequence whose every character is accepted satisfies AllAccepted. */
  lemma {:induction false} AllAcceptedFromEach(tok: Tokenizer, s: seq<CodeUnit>)
    requires forall k :: 0 <= k < |s| ==> tok.Accepts(s[k])
    ensures AllAccepted(tok, s)
    decreases |s|
  {
    if |s| != 0 {
      AllAcceptedFromEach(tok, s[..|s| - 1]);
    }
  }

  lemma {:induction false} AllWordFromEach(tok: Tokenizer, s: seq<CodeUnit>)
    requires forall k :: 0 <= k < |s| ==> tok.IsWordCharacter(s[k])
    ensures AllWord(tok, s)
    decreases |s|
  {
    if |s| != 0 {
      AllWordFromEach(tok, s[..|s| - 1]);
    }
  }

  /** Position of the first character the tokenizer rejects. */
  function FirstRejected(tok: Tokenizer, s: seq<CodeUnit>): (k: nat)
    requires !AllAccepted(tok, s)
    ensures k < |s| && !tok.Accepts(s[k]) && AllAccepted(tok, s[..k])
  {
    AllAcceptedConcat(tok, [s[0]], s[1..]);
    assert [s[0]] + s[1..] == s;
    assert [s[0]][..0] == [];
    if !tok.Accepts(s[0]) then
      assert s[..0] == [];
      0
    else
      var k := 1 + FirstRejected(tok, s[1..]);
      assert s[..k] == [s[0]] + s[1..][..k - 1];
      AllAcceptedConcat(tok, [s[0]], s[1..][..k - 1]);
      k
  }

  /** A rejected character preceded only by accepted ones is the first rejected character. */
  lemma FirstRejectedAt(tok: Tokenizer, s: seq<CodeUnit>, k: nat)
    requires k < |s| && !tok.Accepts(s[k]) && AllAccepted(tok, s[..k])
    ensures !AllAccepted(tok, s) && FirstRejected(tok, s) == k
  {
    if AllAccepted(tok, s) {
      AllAcceptedAt(tok, s, k);
    } else {
      var f := FirstRejected(tok, s);
      if f < k {
        AllAcceptedAt(tok, s[..k], f);
      } else if k < f {
        AllAcceptedAt(tok, s[..f], k);
      }
    }
  }

  /** Index of the first block that holds a rejected character. */
  function FailingBlock(tok: Tokenizer, blocks: seq<seq<CodeUnit>>): (j: nat)
    requires !AllAccepted(tok, Flatten(blocks))
    ensures j < |blocks| && AllAccepted(tok, Flatten(blocks[..j])) && !AllAccepted(tok, blocks[j])
  {
    AllAcceptedConcat(tok, blocks[0], Flatten(blocks[1..]));
    if !AllAccepted(tok, blocks[0]) then
      assert blocks[..0] == [];
      0
    else
      var j := 1 + FailingBlock(tok, blocks[1..]);
      assert blocks[..j] == [blocks[0]] + blocks[1..][..j - 1];
      AllAcceptedConcat(tok, blocks[0], Flatten(blocks[1..][..j - 1]));
      j
  }

  /** A block holding a rejected character after only accepted blocks is the failing block. */
  lemma FailingBlockAt(tok: Tokenizer, blocks: seq<seq<CodeUnit>>, j: nat)
    requires j < |blocks| && AllAccepted(tok, Flatten(blocks[..j])) && !AllAccepted(tok, blocks[j])
    ensures !AllAccepted(tok, Flatten(blocks)) && FailingBlock(tok, blocks) == j
  {
    FlattenSplit(blocks, j);
    AllAcceptedConcat(tok, Flatten(blocks[..j]), blocks[j]);
    AllAcceptedConcat(tok, Flatten(blocks[..j]) + blocks[j], Flatten(blocks[j + 1..]));
    var f := FailingBlock(tok, blocks);
    if f < j {
      assert blocks[..j][..f] == blocks[..f];
      assert blocks[..j][f] == blocks[f];
      FlattenSplit(blocks[..j], f);
      AllAcceptedConcat(tok, Flatten(blocks[..f]), blocks[f]);
      AllAcceptedConcat(tok, Flatten(blocks[..f]) + blocks[f], Flatten(blocks[..j][f + 1..]));
    } else if f > j {
      assert blocks[..f][..j] == blocks[..j];
      assert blocks[..f][j] == blocks[j];
      FlattenSplit(blocks[..f], j);
      AllAcceptedConcat(tok, Flatten(blocks[..j]), blocks[j]);
      AllAcceptedConcat(tok, Flatten(blocks[..j]) + blocks[j], Flatten(blocks[..f][j + 1..]));
    }
  }

  // ---------------------------------------------------------------------------
  // The words, scanned left to right as the counter does.

  /** Words closed by a separator so far, and the run of word characters still open. */
  datatype Scan = Scan(closed: seq<seq<CodeUnit>>, open: seq<CodeUnit>)

  /** One character: a word character extends the open run; anything else closes it. */
  function Step(tok: Tokenizer, st: Scan, ch: CodeUnit): Scan {
    if tok.IsWordCharacter(ch) then Scan(st.closed, st.open + [ch])
    else if |st.open| == 0 then st
    else Scan(st.closed + [st.open], [])
  }

  function ScanFrom(tok: Tokenizer, st: Scan, s: seq<CodeUnit>): Scan {
    if |s| == 0 then st else Step(tok, ScanFrom(tok, st, s[..|s| - 1]), s[|s| - 1])
  }

  function ScanOf(tok: Tokenizer, s: seq<CodeUnit>): Scan {
    ScanFrom(tok, Scan([], []), s)
  }

  /** The words of s that a later separator has already closed. */
  function Closed(tok: Tokenizer, s: seq<CodeUnit>): seq<seq<CodeUnit>> {
    ScanOf(tok, s).closed
  }

  /** The trailing run of word characters of s, not yet closed. */
  function Open(tok: Tokenizer, s: seq<CodeUnit>): seq<CodeUnit> {
    ScanOf(tok, s).open
  }

  /** End of stream closes the open run, if any. */
  function Flush(st: Scan): seq<seq<CodeUnit>> {
    st.closed + (if |st.open| == 0 then [] else [st.open])
  }

  /** The words of s, in order. */
  function Words(tok: Tokenizer, s: seq<CodeUnit>): seq<seq<CodeUnit>> {
    Flush(ScanOf(tok, s))
  }

  lemma ScanSnoc(tok: Tokenizer, s: seq<CodeUnit>, ch: CodeUnit)
    ensures ScanOf(tok, s + [ch]) == Step(tok, ScanOf(tok, s), ch)
  {
    assert (s + [ch])[..|s|] == s;
  }

  lemma ScanFromSnoc(tok: Tokenizer, st: Scan, s: seq<CodeUnit>, ch: CodeUnit)
    ensures ScanFrom(tok, st, s + [ch]) == Step(tok, ScanFrom(tok, st, s), ch)
  {
    assert (s + [ch])[..|s|] == s;
  }

  lemma {:induction false} ScanAppend(tok: Tokenizer, st: Scan, s: seq<CodeUnit>, t: seq<CodeUnit>)
    ensures ScanFrom(tok, st, s + t) == ScanFrom(tok, ScanFrom(tok, st, s), t)
    decreases |t|
  {
    if |t| == 0 {
      assert s + t == s;
    } else {
      var t' := t[..|t| - 1];
      assert (s + t)[..|s + t| - 1] == s + t';
      assert (s + t)[|s + t| - 1] == t[|t| - 1];
      ScanAppend(tok, st, s, t');
    }
  }

  /** The open run of s consists of word characters. */
  lemma {:induction false} OpenAllWord(tok: Tokenizer, st: Scan, s: seq<CodeUnit>)
    requires AllWord(tok, st.open)
    ensures AllWord(tok, ScanFrom(tok, st, s).open)
    decreases |s|
  {
    if |s| != 0 {
      OpenAllWord(tok, st, s[..|s| - 1]);
      AllWordSnoc(tok, ScanFrom(tok, st, s[..|s| - 1]).open, s[|s| - 1]);
    }
  }

  /** A stretch of word characters only extends the open run. */
  lemma {:induction false} ScanAllWord(tok: Tokenizer, st: Scan, w: seq<CodeUnit>)
    requires AllWord(tok, w)
    ensures ScanFrom(tok, st, w) == Scan(st.closed, st.open + w)
    decreases |w|
  {
    if |w| != 0 {
      ScanAllWord(tok, st, w[..|w| - 1]);
      assert w[..|w| - 1] + [w[|w| - 1]] == w;
    }
  }

  /** Words already closed are never revisited. */
  lemma {:induction false} ScanShift(tok: Tokenizer, c: seq<seq<CodeUnit>>, o: seq<CodeUnit>, s: seq<CodeUnit>)
    ensures ScanFrom(tok, Scan(c, o), s)
         == Scan(c + ScanFrom(tok, Scan([], o), s).closed, ScanFrom(tok, Scan([], o), s).open)
    decreases |s|
  {
    if |s| != 0 {
      ScanShift(tok, c, o, s[..|s| - 1]);
      var st := ScanFrom(tok, Scan([], o), s[..|s| - 1]);
      assert c + (st.closed + [st.open]) == (c + st.closed) + [st.open];
    }
  }

  // ---------------------------------------------------------------------------
  // The words, defined independently: the maximal runs of word characters.

  /** Length of the run of word characters at the front of s. */
  function LeadingRun(tok: Tokenizer, s: seq<CodeUnit>): (n: nat)
    ensures n <= |s| && AllWord(tok, s[..n]) && (n < |s| ==> !tok.IsWordCharacter(s[n]))
  {
    if |s| == 0 || !tok.IsWordCharacter(s[0]) then 0
    else
      var n := 1 + LeadingRun(tok, s[1..]);
      assert s[..n] == [s[0]] + s[1..][..n - 1];
      assert [s[0]][..0] == [];
      AllWordConcat(tok, [s[0]], s[1..][..n - 1]);
      n
  }

  /** The maximal runs of word characters of s, front to back. */
  function Runs(tok: Tokenizer, s: seq<CodeUnit>): seq<seq<CodeUnit>>
    decreases |s|
  {
    if |s| == 0 then []
    else if !tok.IsWordCharacter(s[0]) then Runs(tok, s[1..])
    else
      var n := LeadingRun(tok, s);
      [s[..n]] + Runs(tok, s[n..])
  }

  /** The counter's left-to-right scan finds exactly the maximal runs. */
  lemma {:induction false} WordsAreRuns(tok: Tokenizer, s: seq<CodeUnit>)
    ensures Words(tok, s) == Runs(tok, s)
    decreases |s|
  {
    if |s| == 0 {
    } else if !tok.IsWordCharacter(s[0]) {
      WordsAroundSeparator(tok, [], s[0], s[1..]);
      assert [] + [s[0]] + s[1..] == s;
      WordsAreRuns(tok, s[1..]);
    } else {
      var n := LeadingRun(tok, s);
      var w, rest := s[..n], s[n..];
      SingleRunIsOneWord(tok, w);
      if |rest| == 0 {
        assert s == w;
      } else {
        WordsAroundSeparator(tok, w, rest[0], rest[1..]);
        assert w + [rest[0]] + rest[1..] == s;
        WordsAreRuns(tok, rest[1..]);
      }
    }
  }

  /** Every word is non-empty and made of word characters, so the matcher never sees an empty word. */
  lemma {:induction false} RunsAreWords(tok: Tokenizer, s: seq<CodeUnit>)
    ensures forall k :: 0 <= k < |Runs(tok, s)| ==> Runs(tok, s)[k] != [] && AllWord(tok, Runs(tok, s)[k])
    decreases |s|
  {
    if |s| == 0 {
    } else if !tok.IsWordCharacter(s[0]) {
      RunsAreWords(tok, s[1..]);
    } else {
      var n := LeadingRun(tok, s);
      RunsAreWords(tok, s[n..]);
    }
  }

  /** Input made only of separators has no words. */
  lemma {:induction false} SeparatorsOnlyHaveNoWords(tok: Tokenizer, s: seq<CodeUnit>)
    requires forall i :: 0 <= i < |s| ==> !tok.IsWordCharacter(s[i])
    ensures Words(tok, s) == []
    decreases |s|
  {
    WordsAreRuns(tok, s);
    if |s| != 0 {
      SeparatorsOnlyHaveNoWords(tok, s[1..]);
      WordsAreRuns(tok, s[1..]);
    }
  }

  /** A non-empty stretch of word characters with no separator is one word, however long. */
  lemma SingleRunIsOneWord(tok: Tokenizer, s: seq<CodeUnit>)
    requires s != [] && AllWord(tok, s)
    ensures Words(tok, s) == [s]
  {
    ScanAllWord(tok, Scan([], []), s);
    assert [] + s == s;
  }

  /** A separator splits the words of the stream into those before and after it. */
  lemma WordsAroundSeparator(tok: Tokenizer, u: seq<CodeUnit>, sep: CodeUnit, v: seq<CodeUnit>)
    requires !tok.IsWordCharacter(sep)
    ensures Words(tok, u + [sep] + v) == Words(tok, u) + Words(tok, v)
  {
    var empty := Scan([], []);
    ScanAppend(tok, empty, u + [sep], v);
    ScanSnoc(tok, u, sep);
    var su := ScanOf(tok, u);
    assert ScanOf(tok, u + [sep]) == Scan(Flush(su), []);
    ScanShift(tok, Flush(su), [], v);
    var sv := ScanOf(tok, v);
    assert Flush(Scan(Flush(su) + sv.closed, sv.open)) == Flush(su) + Flush(sv);
  }

  // ---------------------------------------------------------------------------
  // The count.

  /** Number of words in ws the matcher accepts. */
  function CountMatching(matcher: WordMatcher, ws: seq<seq<CodeUnit>>): (n: nat)
    ensures n <= |ws|
  {
    if |ws| == 0 then 0
    else CountMatching(matcher, ws[..|ws| - 1]) + (if matcher.Matches(ws[|ws| - 1]) then 1 else 0)
  }

  lemma CountMatchingSnoc(matcher: WordMatcher, ws: seq<seq<CodeUnit>>, w: seq<CodeUnit>)
    ensures CountMatching(matcher, ws + [w]) == CountMatching(matcher, ws) + (if matcher.Matches(w) then 1 else 0)
  {
    assert (ws + [w])[..|ws|] == ws;
  }

  lemma {:induction false} CountMatchingConcat(matcher: WordMatcher, a: seq<seq<CodeUnit>>, b: seq<seq<CodeUnit>>)
    ensures CountMatching(matcher, a + b) == CountMatching(matcher, a) + CountMatching(matcher, b)
    decreases |b|
  {
    if |b| == 0 {
      assert a + b == a;
    } else {
      assert (a + b)[..|a + b| - 1] == a + b[..|b| - 1];
      CountMatchingConcat(matcher, a, b[..|b| - 1]);
    }
  }

  /** The result of counting a whole stream. */
  datatype Outcome = Counted(count: nat) | InvalidCharacter(ch: CodeUnit)

  /** The intended result: the first rejected character, or the number of matching words. */
  function Expected(tok: Tokenizer, matcher: WordMatcher, s: seq<CodeUnit>): Outcome {
    if AllAccepted(tok, s) then Counted(CountMatching(matcher, Words(tok, s)))
    else InvalidCharacter(s[FirstRejected(tok, s)])
  }

  /**
   * The intended result, stated with the independent definition of words:
   * the number of maximal runs of word characters the matcher accepts, each
   * of them non-empty.
   */
  lemma ExpectedCountsRuns(tok: Tokenizer, matcher: WordMatcher, s: seq<CodeUnit>)
    requires AllAccepted(tok, s)
    ensures Expected(tok, matcher, s) == Counted(CountMatching(matcher, Runs(tok, s)))
    ensures forall k :: 0 <= k < |Words(tok, s)| ==> |Words(tok, s)[k]| > 0
  {
    WordsAreRuns(tok, s);
    RunsAreWords(tok, s);
  }

  /** A non-empty stream of word characters only is one word, matched once. */
  lemma SingleWordExpected(tok: Tokenizer, matcher: WordMatcher, s: seq<CodeUnit>)
    requires |s| > 0 && forall k :: 0 <= k < |s| ==> tok.IsWordCharacter(s[k])
    ensures Expected(tok, matcher, s) == Counted(if matcher.Matches(s) then 1 else 0)
  {
    AllWordFromEach(tok, s);
    AllWordAccepted(tok, s);
    SingleRunIsOneWord(tok, s);
    CountMatchingSnoc(matcher, [], s);
    assert [] + [s] == [s];
  }

  // ---------------------------------------------------------------------------
  // Text built from a list of words.

  /** Every word of ws is non-empty and made of word characters. */
  predicate AllProperWords(tok: Tokenizer, ws: seq<seq<CodeUnit>>) {
    forall k :: 0 <= k < |ws| ==> ws[k] != [] && AllWord(tok, ws[k])
  }

  /** The words of ws with one separator character between neighbours. */
  function Join(ws: seq<seq<CodeUnit>>, sep: CodeUnit): seq<CodeUnit> {
    if |ws| == 0 then []
    else if |ws| == 1 then ws[0]
    else Join(ws[..|ws| - 1], sep) + [sep] + ws[|ws| - 1]
  }

  /** n copies of the word w. */
  function Repeat(w: seq<CodeUnit>, n: nat): seq<seq<CodeUnit>> {
    seq(n, _ => w)
  }

  lemma ProperWordsPrefix(tok: Tokenizer, ws: seq<seq<CodeUnit>>)
    requires |ws| > 0 && AllProperWords(tok, ws)
    ensures AllProperWords(tok, ws[..|ws| - 1])
  {
  }

  /** Joining words with a non-word character gives back exactly those words. */
  lemma {:induction false} WordsOfJoin(tok: Tokenizer, ws: seq<seq<CodeUnit>>, sep: CodeUnit)
    requires !tok.IsWordCharacter(sep) && AllProperWords(tok, ws)
    ensures Words(tok, Join(ws, sep)) == ws
    decreases |ws|
  {
    if |ws| == 1 {
      SingleRunIsOneWord(tok, ws[0]);
    } else if |ws| > 1 {
      var init, last := ws[..|ws| - 1], ws[|ws| - 1];
      ProperWordsPrefix(tok, ws);
      WordsOfJoin(tok, init, sep);
      WordsAroundSeparator(tok, Join(init, sep), sep, last);
      SingleRunIsOneWord(tok, last);
      assert init + [last] == ws;
    }
  }

  /** Words joined by a separator are accepted text. */
  lemma {:induction false} JoinAccepted(tok: Tokenizer, ws: seq<seq<CodeUnit>>, sep: CodeUnit)
    requires tok.IsSeparatorCharacter(sep) && AllProperWords(tok, ws)
    ensures AllAccepted(tok, Join(ws, sep))
    decreases |ws|
  {
    if |ws| == 1 {
      AllWordAccepted(tok, ws[0]);
    } else if |ws| > 1 {
      var init, last := ws[..|ws| - 1], ws[|ws| - 1];
      ProperWordsPrefix(tok, ws);
      JoinAccepted(tok, init, sep);
      AllWordAccepted(tok, last);
      AllAcceptedSnoc(tok, Join(init, sep), sep);
      AllAcceptedConcat(tok, Join(init, sep) + [sep], last);
    }
  }

  /**
   * Counting words separated by a separator character: the outcome is the
   * number of them the matcher accepts.
   */
  lemma JoinExpected(tok: Tokenizer, matcher: WordMatcher, ws: seq<seq<CodeUnit>>, sep: CodeUnit)
    requires tok.IsSeparatorCharacter(sep) && !tok.IsWordCharacter(sep) && AllProperWords(tok, ws)
    ensures Expected(tok, matcher, Join(ws, sep)) == Counted(CountMatching(matcher, ws))
  {
    JoinAccepted(tok, ws, sep);
    WordsOfJoin(tok, ws, sep);
  }

  /** n copies of a word count n times if the matcher accepts it, and not at all otherwise. */
  lemma {:induction false} CountMatchingRepeat(matcher: WordMatcher, w: seq<CodeUnit>, n: nat)
    ensures CountMatching(matcher, Repeat(w, n)) == if matcher.Matches(w) then n else 0
  {
    if n > 0 {
      CountMatchingRepeat(matcher, w, n - 1);
      assert Repeat(w, n)[..n - 1] == Repeat(w, n - 1);
    }
  }
}
