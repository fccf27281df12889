/**
 * The streaming word counter: reads the input one block at a time into a
 * fixed-size buffer, tracks the open word within each block, carries a word
 * cut off by the end of a block over in an overflow buffer, and hands every
 * completed word to the matcher exactly once.
 */
module WordCounting {
  import opened Abstractions
  import opened StreamWords
  import opened SeqFacts

  /** Capacity of the block buffer. */
  const BufferSize: nat := 1024

  /** What successive reads deliver: blocks of 1 to BufferSize characters; a read of 0 means end of stream. */
  predicate IsBlockStream(blocks: seq<seq<CodeUnit>>) {
    forall k :: 0 <= k < |blocks| ==> 0 < |blocks[k]| <= BufferSize
  }

  /** Reads block number `next` of the stream into the front of `buffer`; returns its length, or 0 at end of stream. */
  method ReadBlock(source: seq<seq<CodeUnit>>, next: nat, buffer: array<CodeUnit>) returns (read: nat)
    requires IsBlockStream(source) && buffer.Length == BufferSize
    modifies buffer
    ensures read == (if next < |source| then |source[next]| else 0)
    ensures next < |source| ==> buffer[..read] == source[next]
  {
    if next < |source| {
      var block := source[next];
      forall j | 0 <= j < |block| {
        buffer[j] := block[j];
      }
      read := |block|;
    } else {
      read := 0;
    }
  }

  /** How the scan of one block ended: at its end, or at a rejected character. */
  datatype BlockScan = Completed | Rejected(position: nat, ch: CodeUnit)

  class WordCounter {
    const tokenizer: Tokenizer
    const wordMatcher: WordMatcher

    /** Matching words found so far in the current call. */
    var count: nat

    /** Prefix of a word that the end of a block cut off. */
    var allocatedBuffer: seq<CodeUnit>

    /** Every word handed to the matcher in the current call, in order. */
    ghost var matched: seq<seq<CodeUnit>>

    /** The overflow buffer only holds word characters, and the count is the number of accepted matcher calls. */
    ghost predicate Valid()
      reads this
    {
      AllWord(tokenizer, allocatedBuffer) && count == CountMatching(wordMatcher, matched)
    }

    constructor (tokenizer: Tokenizer, wordMatcher: WordMatcher)
      ensures Valid()
      ensures this.tokenizer == tokenizer && this.wordMatcher == wordMatcher
      ensures count == 0 && allocatedBuffer == [] && matched == []
    {
      this.tokenizer := tokenizer;
      this.wordMatcher := wordMatcher;
      count := 0;
      allocatedBuffer := [];
      matched := [];
    }

    /**
     * Resolves a finished word: a non-empty overflow buffer takes the span as
     * its tail and the whole buffer is the word; the buffer is then empty.
     * The matcher is consulted only on a non-empty word.
     */
    method MatchWord(word: seq<CodeUnit>)
      requires Valid()
      modifies this
      ensures Valid() && allocatedBuffer == []
      ensures var resolved := old(allocatedBuffer) + word;
        && matched == old(matched) + (if |resolved| == 0 then [] else [resolved])
        && count == old(count) + (if |resolved| != 0 && wordMatcher.Matches(resolved) then 1 else 0)
    {
      var w := word;
      if |allocatedBuffer| != 0 {
        allocatedBuffer := allocatedBuffer + word;
        w := allocatedBuffer;
        allocatedBuffer := [];
      }
      assert w == old(allocatedBuffer) + word;
      if |w| != 0 {
        CountMatchingSnoc(wordMatcher, matched, w);
        matched := matched + [w];
        if wordMatcher.Matches(w) {
          count := count + 1;
        }
      }
    }

    /**
     * The body of the read loop for one block just read: the inner loop opens
     * and extends the word span (lastWordStart, lastWordLength) on word
     * characters, resolves it on separators and stops at the first character
     * that is neither; a span still open at the end of the block is appended
     * to the overflow buffer. `st` is the scan state of everything read
     * before this block.
     */
    method ScanBlock(block: seq<CodeUnit>, ghost st: Scan) returns (outcome: BlockScan)
      requires Valid() && allocatedBuffer == st.open && matched == st.closed
      modifies this
      ensures Valid()
      ensures outcome.Completed? ==>
        && AllAccepted(tokenizer, block)
        && Scan(matched, allocatedBuffer) == ScanFrom(tokenizer, st, block)
      ensures outcome.Rejected? ==>
        && outcome.position < |block| && outcome.ch == block[outcome.position]
        && AllAccepted(tokenizer, block[..outcome.position]) && !tokenizer.Accepts(outcome.ch)
        && matched == ScanFrom(tokenizer, st, block[..outcome.position]).closed
        && allocatedBuffer == (if AllWord(tokenizer, block[..outcome.position]) then st.open else [])
    {
      var lastWordStart := 0;
      var lastWordLength := 0;
      InBlockStart(tokenizer, st, block);
      for i := 0 to |block|
        invariant Valid()
        invariant InBlock(tokenizer, st, block, i, allocatedBuffer, lastWordStart, lastWordLength, matched)
      {
        var currentChar := block[i];
        if tokenizer.IsWordCharacter(currentChar) {
          InBlockWord(tokenizer, st, block, i, allocatedBuffer, lastWordStart, lastWordLength, matched);
          if lastWordLength == 0 {
            // start a new word
            lastWordStart := i;
          }
          lastWordLength := lastWordLength + 1;
        } else if tokenizer.IsSeparatorCharacter(currentChar) {
          InBlockSeparator(tokenizer, st, block, i, allocatedBuffer, lastWordStart, lastWordLength, matched);
          MatchWord(block[lastWordStart..lastWordStart + lastWordLength]);
          lastWordLength := 0;
        } else {
          InBlockRejected(tokenizer, st, block, i, allocatedBuffer, lastWordStart, lastWordLength, matched);
          return Rejected(i, currentChar);
        }
      }
      InBlockEnd(tokenizer, st, block, allocatedBuffer, lastWordStart, lastWordLength, matched);
      OpenAllWord(tokenizer, st, block);
      if lastWordLength != 0 {
        // a word on a block boundary: keep it whole for later
        allocatedBuffer := allocatedBuffer + block[lastWordStart..lastWordStart + lastWordLength];
      }
      return Completed;
    }

    /**
     * Counts the words of the stream that the matcher accepts. The overflow
     * buffer is not cleared on entry, so whatever it holds is read as the
     * start of the stream; on a fresh counter it is empty.
     */
    method Count(input: seq<seq<CodeUnit>>) returns (r: Outcome)
      requires Valid() && IsBlockStream(input)
      modifies this
      ensures Valid()
      ensures r == Expected(tokenizer, wordMatcher, old(allocatedBuffer) + Flatten(input))
      ensures r.InvalidCharacter? <==> !AllAccepted(tokenizer, Flatten(input))
      ensures r.Counted? ==>
        && count == r.count
        && allocatedBuffer == []
        && matched == Words(tokenizer, old(allocatedBuffer) + Flatten(input))
      ensures r.InvalidCharacter? ==>
        var j := FailingBlock(tokenizer, input);
        var i := FirstRejected(tokenizer, input[j]);
        var carried := old(allocatedBuffer) + Flatten(input[..j]);
        && matched == Closed(tokenizer, carried + input[j][..i])
        && allocatedBuffer == (if AllWord(tokenizer, input[j][..i]) then Open(tokenizer, carried) else [])
    {
      ghost var start := allocatedBuffer;
      count := 0;
      matched := [];
      BetweenBlocksStart(tokenizer, start, input);
      var stackBuffer := new CodeUnit[BufferSize];
      var next := 0;
      while true
        invariant 0 <= next <= |input|
        invariant Valid() && BetweenBlocks(tokenizer, start, input, next, allocatedBuffer, matched)
        decreases |input| - next
      {
        var read := ReadBlock(input, next, stackBuffer);
        if read == 0 {
          break;
        }
        ghost var st := Scan(matched, allocatedBuffer);
        var block := stackBuffer[..read];
        var scanned := ScanBlock(block, st);
        if scanned.Rejected? {
          RejectedAt(tokenizer, wordMatcher, start, input, next, scanned.position, st);
          r := InvalidCharacter(scanned.ch);
          return;
        }
        BlockDone(tokenizer, start, input, next, st);
        next := next + 1;
      }
      StreamEnd(tokenizer, wordMatcher, start, input, Scan(matched, allocatedBuffer));
      // word at the end of the stream
      AppendEmpty(allocatedBuffer);
      MatchWord([]);
      r := Counted(count);
    }

    /**
     * Counts from an emptied overflow buffer, so that nothing a previous call
     * left behind reaches this one.
     */
    method CountFromReset(input: seq<seq<CodeUnit>>) returns (r: Outcome)
      requires IsBlockStream(input)
      modifies this
      ensures Valid()
      ensures r == Expected(tokenizer, wordMatcher, Flatten(input))
      ensures r.Counted? ==> count == r.count && allocatedBuffer == [] && matched == Words(tokenizer, Flatten(input))
    {
      allocatedBuffer := [];
      count := 0;
      matched := [];
      r := Count(input);
      AppendEmpty(Flatten(input));
    }
  }

  /**
   * Where the scan of a block stands after its first i characters: those were
   * all accepted, the words closed so far are `closed`, and the open run is
   * the overflow buffer followed by the current span, the buffer surviving
   * only while no separator has been seen in the block.
   */
  ghost predicate InBlock(tok: Tokenizer, st: Scan, block: seq<CodeUnit>, i: nat,
                          buffer: seq<CodeUnit>, start: nat, length: nat, closed: seq<seq<CodeUnit>>)
  {
    && i <= |block| && start + length <= i && (length > 0 ==> start + length == i)
    && AllAccepted(tok, block[..i])
    && ScanFrom(tok, st, block[..i]) == Scan(closed, buffer + block[start..start + length])
    && buffer == (if AllWord(tok, block[..i]) then st.open else [])
  }

  lemma InBlockStart(tok: Tokenizer, st: Scan, block: seq<CodeUnit>)
    ensures InBlock(tok, st, block, 0, st.open, 0, 0, st.closed)
  {
    assert block[..0] == [];
    assert block[0..0] == [];
    assert st.open + [] == st.open;
  }

  lemma InBlockWord(tok: Tokenizer, st: Scan, block: seq<CodeUnit>, i: nat,
                    buffer: seq<CodeUnit>, start: nat, length: nat, closed: seq<seq<CodeUnit>>)
    requires InBlock(tok, st, block, i, buffer, start, length, closed)
    requires i < |block| && tok.IsWordCharacter(block[i])
    ensures InBlock(tok, st, block, i + 1, buffer, if length == 0 then i else start, length + 1, closed)
  {
    var ch := block[i];
    TakeSnoc(block, i);
    AllWordSnoc(tok, block[..i], ch);
    AllAcceptedSnoc(tok, block[..i], ch);
    ScanFromSnoc(tok, st, block[..i], ch);
    var s := if length == 0 then i else start;
    assert block[s..s + length] == block[start..start + length] by {
      if length == 0 { SliceEmpty(block, s); SliceEmpty(block, start); }
    }
    SliceSnoc(block, s, i);
    AppendAssoc(buffer, block[s..i], [ch]);
  }

  lemma InBlockSeparator(tok: Tokenizer, st: Scan, block: seq<CodeUnit>, i: nat,
                         buffer: seq<CodeUnit>, start: nat, length: nat, closed: seq<seq<CodeUnit>>)
    requires InBlock(tok, st, block, i, buffer, start, length, closed)
    requires i < |block| && !tok.IsWordCharacter(block[i]) && tok.IsSeparatorCharacter(block[i])
    ensures var w := buffer + block[start..start + length];
      InBlock(tok, st, block, i + 1, [], start, 0, closed + (if |w| == 0 then [] else [w]))
  {
    var ch := block[i];
    TakeSnoc(block, i);
    AllWordSnoc(tok, block[..i], ch);
    AllAcceptedSnoc(tok, block[..i], ch);
    ScanFromSnoc(tok, st, block[..i], ch);
    SliceEmpty(block, start);
    AppendEmpty<CodeUnit>([]);
  }

  lemma InBlockRejected(tok: Tokenizer, st: Scan, block: seq<CodeUnit>, i: nat,
                        buffer: seq<CodeUnit>, start: nat, length: nat, closed: seq<seq<CodeUnit>>)
    requires InBlock(tok, st, block, i, buffer, start, length, closed)
    requires i < |block| && !tok.Accepts(block[i])
    ensures AllAccepted(tok, block[..i]) && closed == ScanFrom(tok, st, block[..i]).closed
    ensures buffer == (if AllWord(tok, block[..i]) then st.open else [])
  {
  }

  lemma InBlockEnd(tok: Tokenizer, st: Scan, block: seq<CodeUnit>,
                   buffer: seq<CodeUnit>, start: nat, length: nat, closed: seq<seq<CodeUnit>>)
    requires InBlock(tok, st, block, |block|, buffer, start, length, closed)
    ensures start + length <= |block| && AllAccepted(tok, block)
    ensures ScanFrom(tok, st, block) == Scan(closed, buffer + block[start..start + length])
    ensures length == 0 ==> ScanFrom(tok, st, block) == Scan(closed, buffer)
  {
    assert block[..|block|] == block;
    if length == 0 {
      SliceEmpty(block, start);
      AppendEmpty(buffer);
    }
  }

  /**
   * Between two reads: the characters read so far (the carried buffer, then
   * the first `next` blocks) were all accepted, and scanning them closed the
   * words `closed` and left `buffer` open.
   */
  ghost predicate BetweenBlocks(tok: Tokenizer, start: seq<CodeUnit>, input: seq<seq<CodeUnit>>, next: nat,
                                buffer: seq<CodeUnit>, closed: seq<seq<CodeUnit>>)
  {
    && next <= |input|
    && AllAccepted(tok, start + Flatten(input[..next]))
    && ScanOf(tok, start + Flatten(input[..next])) == Scan(closed, buffer)
  }

  lemma BetweenBlocksStart(tok: Tokenizer, start: seq<CodeUnit>, input: seq<seq<CodeUnit>>)
    requires AllWord(tok, start)
    ensures BetweenBlocks(tok, start, input, 0, start, [])
  {
    assert input[..0] == [];
    AppendEmpty(start);
    AllWordAccepted(tok, start);
    ScanAllWord(tok, Scan([], []), start);
    AppendEmpty<CodeUnit>([]);
  }

  /** Finishing block `next` extends the text read so far and its scan state. */
  lemma BlockDone(tok: Tokenizer, start: seq<CodeUnit>, input: seq<seq<CodeUnit>>, next: nat, st: Scan)
    requires next < |input| && BetweenBlocks(tok, start, input, next, st.open, st.closed)
    requires AllWord(tok, st.open) && AllAccepted(tok, input[next])
    ensures var after := ScanFrom(tok, st, input[next]);
      BetweenBlocks(tok, start, input, next + 1, after.open, after.closed) && AllWord(tok, after.open)
  {
    var seen := start + Flatten(input[..next]);
    assert input[..next + 1] == input[..next] + [input[next]];
    FlattenSnoc(input[..next], input[next]);
    AppendAssoc(start, Flatten(input[..next]), input[next]);
    AllAcceptedConcat(tok, seen, input[next]);
    ScanAppend(tok, Scan([], []), seen, input[next]);
    OpenAllWord(tok, st, input[next]);
  }

  /**
   * When everything before position i of block j was accepted and the
   * character there is not, that character is the first one rejected in the
   * whole stream, whatever word prefix was carried in front of it.
   */
  lemma FirstRejectedInStream(tok: Tokenizer, start: seq<CodeUnit>, input: seq<seq<CodeUnit>>, j: nat, i: nat)
    requires j < |input| && i < |input[j]|
    requires AllAccepted(tok, start + Flatten(input[..j]))
    requires AllAccepted(tok, input[j][..i]) && !tok.Accepts(input[j][i])
    ensures !AllAccepted(tok, start + Flatten(input)) && !AllAccepted(tok, Flatten(input))
    ensures FailingBlock(tok, input) == j && FirstRejected(tok, input[j]) == i
    ensures (start + Flatten(input))[FirstRejected(tok, start + Flatten(input))] == input[j][i]
  {
    var carried := start + Flatten(input[..j]);
    var s := start + Flatten(input);
    var p := |carried| + i;
    StreamPosition(start, input, j, i);
    AllAcceptedConcat(tok, carried, input[j][..i]);
    FirstRejectedAt(tok, s, p);
    FirstRejectedAt(tok, input[j], i);
    AllAcceptedConcat(tok, start, Flatten(input[..j]));
    FailingBlockAt(tok, input, j);
  }

  /** Position i of block j, seen in the whole stream behind a carried prefix. */
  lemma StreamPosition(start: seq<CodeUnit>, input: seq<seq<CodeUnit>>, j: nat, i: nat)
    requires j < |input| && i < |input[j]|
    ensures var carried := start + Flatten(input[..j]);
      var s := start + Flatten(input);
      && |carried| + i < |s| && s[|carried| + i] == input[j][i]
      && s[..|carried| + i] == carried + input[j][..i]
  {
    var carried := start + Flatten(input[..j]);
    var s := start + Flatten(input);
    FlattenSplit(input, j);
    AppendAssoc(start, Flatten(input[..j]), input[j] + Flatten(input[j + 1..]));
    AppendAssoc(Flatten(input[..j]), input[j], Flatten(input[j + 1..]));
    assert s == carried + (input[j] + Flatten(input[j + 1..]));
  }

  /** The counter's state and answer when it stops at a rejected character. */
  lemma RejectedAt(tok: Tokenizer, m: WordMatcher, start: seq<CodeUnit>, input: seq<seq<CodeUnit>>, j: nat, i: nat, st: Scan)
    requires j < |input| && i < |input[j]| && BetweenBlocks(tok, start, input, j, st.open, st.closed)
    requires AllAccepted(tok, input[j][..i]) && !tok.Accepts(input[j][i])
    ensures !AllAccepted(tok, Flatten(input))
    ensures Expected(tok, m, start + Flatten(input)) == InvalidCharacter(input[j][i])
    ensures FailingBlock(tok, input) == j && FirstRejected(tok, input[j]) == i
    ensures Closed(tok, start + Flatten(input[..j]) + input[j][..i]) == ScanFrom(tok, st, input[j][..i]).closed
    ensures Open(tok, start + Flatten(input[..j])) == st.open
  {
    FirstRejectedInStream(tok, start, input, j, i);
    ScanAppend(tok, Scan([], []), start + Flatten(input[..j]), input[j][..i]);
  }

  /** At end of stream the open run is the last word, and the outcome is the count of the words. */
  lemma StreamEnd(tok: Tokenizer, m: WordMatcher, start: seq<CodeUnit>, input: seq<seq<CodeUnit>>, st: Scan)
    requires BetweenBlocks(tok, start, input, |input|, st.open, st.closed)
    ensures AllAccepted(tok, Flatten(input))
    ensures Words(tok, start + Flatten(input)) == st.closed + (if |st.open| == 0 then [] else [st.open])
    ensures Expected(tok, m, start + Flatten(input))
         == Counted(CountMatching(m, st.closed + (if |st.open| == 0 then [] else [st.open])))
  {
    assert input[..|input|] == input;
    AllAcceptedConcat(tok, start, Flatten(input));
  }
}
