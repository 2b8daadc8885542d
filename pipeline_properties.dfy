/*
 * What the tokens appended by `tokenize` are guaranteed to look like:
 *  - every token word is a non-empty run of ASCII letters and digits that
 *    begins with a letter, and its inclusive byte range is at least two bytes;
 *  - the segments of one match concatenate back to the match and all carry its
 *    bounds; a one-letter match yields nothing;
 *  - a chunk's tokens lie inside the bytes its trimmed text would take from
 *    the running offset, so every token of a chunk ends before any token of a
 *    later chunk on the same line starts;
 *  - a chunk that trims to nothing or is ignored changes nothing at all;
 *  - line numbers run from 1 and never decrease.
 */
module PipelineProperties {
  import opened Text
  import opened Chunking
  import opened Patterns
  import opened CaseSplit
  import opened Tokens
  import opened Pipeline

  /** A non-empty run of ASCII letters and digits that begins with a letter. */
  predicate IsWord(w: string) {
    && w != []
    && IsAsciiLetter(w[0])
    && (forall j :: 0 <= j < |w| ==> IsAlnum(w[j]))
  }

  /** A token with such a word, spanning at least two bytes. */
  predicate WellFormed(t: Token) {
    IsWord(t.word) && t.position.start < t.position.end
  }

  /** Every token is well formed, is on line `lineNo`, and lies within the bytes `[lo, hi)`. */
  predicate InWindow(ts: seq<Token>, lo: nat, hi: nat, lineNo: nat) {
    forall k :: 0 <= k < |ts| ==>
      && WellFormed(ts[k])
      && lo <= ts[k].position.start
      && ts[k].position.end < hi
      && ts[k].position.lineNo == lineNo
  }

  /** The words of a token sequence, in order. */
  function Words(ts: seq<Token>): (ws: seq<string>)
    ensures |ws| == |ts| && forall k :: 0 <= k < |ts| ==> ws[k] == ts[k].word
  {
    seq(|ts|, k requires 0 <= k < |ts| => ts[k].word)
  }

  lemma InWindowAppend(a: seq<Token>, b: seq<Token>, lo: nat, hi: nat, lineNo: nat)
    requires InWindow(a, lo, hi, lineNo) && InWindow(b, lo, hi, lineNo)
    ensures InWindow(a + b, lo, hi, lineNo)
  {
    forall k | 0 <= k < |a + b|
      ensures (a + b)[k] == (if k < |a| then a[k] else b[k - |a|])
    {
    }
  }

  lemma InWindowWiden(ts: seq<Token>, lo: nat, hi: nat, lo': nat, hi': nat, lineNo: nat)
    requires InWindow(ts, lo, hi, lineNo) && lo' <= lo && hi <= hi'
    ensures InWindow(ts, lo', hi', lineNo)
  {
  }

  // ---------------------------------------------------------------- one match

  /** Each segment of the case split of a word is itself a word. */
  lemma SegmentsAreWords(word: string)
    requires IsWord(word)
    ensures forall k :: 0 <= k < |CaseSegments(word)| ==> IsWord(CaseSegments(word)[k])
  {
    var parts := CaseSegments(word);
    CaseSegmentsNonEmpty(word);
    CaseSegmentsIsCaseSplit(word);
    ConcatHead(parts);
    assert parts[0][0] == word[0];
    forall k, j | 0 <= k < |parts| && 0 <= j < |parts[k]| ensures IsAlnum(parts[k][j]) {
      ConcatMember(parts, k, parts[k][j]);
    }
  }

  /**
   * A match of one letter yields no token.  Otherwise there is one token per
   * case segment, the words concatenate back to the match, and every token
   * carries the match's own bounds: `start` is the offset plus the byte index
   * of the match in its sub-chunk, `end` the index of its last byte.
   */
  lemma MatchTokensSpec(sub: string, m: Span, offset: nat, lineNo: nat)
    requires m.start < m.end <= |sub|
    requires IsWord(sub[m.start..m.end])
    ensures MatchTokens(sub, m, offset, lineNo) == [] <==> m.end - m.start == 1
    ensures m.end - m.start > 1 ==> Concat(Words(MatchTokens(sub, m, offset, lineNo))) == sub[m.start..m.end]
    ensures forall k :: 0 <= k < |MatchTokens(sub, m, offset, lineNo)| ==>
              && MatchTokens(sub, m, offset, lineNo)[k].position.start == offset + ByteLen(sub[..m.start])
              && MatchTokens(sub, m, offset, lineNo)[k].position.end == offset + ByteLen(sub[..m.end]) - 1
              && MatchTokens(sub, m, offset, lineNo)[k].position.end + 1
                   - MatchTokens(sub, m, offset, lineNo)[k].position.start == m.end - m.start
    ensures InWindow(MatchTokens(sub, m, offset, lineNo),
                     offset + ByteLen(sub[..m.start]), offset + ByteLen(sub[..m.end]), lineNo)
  {
    var word := sub[m.start..m.end];
    AsciiByteLen(word);
    ByteLenPrefix(sub, m.start, m.end);
    if |word| > 1 {
      var segments := CaseSegments(word);
      SegmentsAreWords(word);
      CaseSegmentsConcat(word);
      CaseSegmentsNonEmpty(word);
      assert Words(MatchTokens(sub, m, offset, lineNo)) == segments;
    }
  }

  // ------------------------------------------------------- sub-chunk and chunk

  /** The tokens of a sub-chunk's matches lie within the sub-chunk's bytes. */
  lemma {:induction false} SpansTokensWindow(sub: string, ms: seq<Span>, offset: nat, lineNo: nat)
    requires AlnumSpans(sub, ms)
    ensures InWindow(SpansTokens(sub, ms, offset, lineNo), offset, offset + ByteLen(sub), lineNo)
    decreases |ms|
  {
    if ms != [] {
      var init := ms[..|ms| - 1];
      var m := ms[|ms| - 1];
      assert AlnumSpans(sub, init) by {
        assert forall k :: 0 <= k < |init| ==> init[k] == ms[k];
      }
      SpansTokensWindow(sub, init, offset, lineNo);
      assert IsWord(sub[m.start..m.end]);
      MatchTokensSpec(sub, m, offset, lineNo);
      ByteLenPrefix(sub, m.end, |sub|);
      assert sub[..|sub|] == sub;
      InWindowWiden(MatchTokens(sub, m, offset, lineNo),
        offset + ByteLen(sub[..m.start]), offset + ByteLen(sub[..m.end]),
        offset, offset + ByteLen(sub), lineNo);
      InWindowAppend(SpansTokens(sub, init, offset, lineNo), MatchTokens(sub, m, offset, lineNo),
        offset, offset + ByteLen(sub), lineNo);
    }
  }

  lemma SubChunkTokensWindow(sub: string, offset: nat, lineNo: nat)
    ensures InWindow(SubChunkTokens(sub, offset, lineNo), offset, offset + ByteLen(sub), lineNo)
  {
    if sub != [] {
      WordMatchesAreAlnum(sub);
      SpansTokensWindow(sub, WordMatches(sub), offset, lineNo);
    }
  }

  lemma {:induction false} SubChunksTokensWindow(subs: seq<string>, offset: nat, lineNo: nat, size: nat)
    requires forall k :: 0 <= k < |subs| ==> ByteLen(subs[k]) <= size
    ensures InWindow(SubChunksTokens(subs, offset, lineNo), offset, offset + size, lineNo)
    decreases |subs|
  {
    if subs != [] {
      var last := subs[|subs| - 1];
      SubChunksTokensWindow(subs[..|subs| - 1], offset, lineNo, size);
      SubChunkTokensWindow(last, offset, lineNo);
      InWindowWiden(SubChunkTokens(last, offset, lineNo), offset, offset + ByteLen(last),
        offset, offset + size, lineNo);
      InWindowAppend(SubChunksTokens(subs[..|subs| - 1], offset, lineNo), SubChunkTokens(last, offset, lineNo),
        offset, offset + size, lineNo);
    }
  }

  /**
   * A skipped chunk yields no token and does not move the offset; the tokens
   * of any other chunk lie within the bytes its trimmed text takes from the
   * offset.
   */
  lemma ChunkTokensWindow(chunk: string, offset: nat, lineNo: nat)
    ensures Skipped(chunk) ==> ChunkTokens(chunk, offset, lineNo) == [] && Advance(chunk) == 0
    ensures !Skipped(chunk) ==> Advance(chunk) == ByteLen(TrimEdges(chunk)) + 1
    ensures InWindow(ChunkTokens(chunk, offset, lineNo), offset, offset + ByteLen(TrimEdges(chunk)), lineNo)
  {
    if !Skipped(chunk) {
      SplitSeparatorsByteLen(TrimEdges(chunk));
      SubChunksTokensWindow(SplitSeparators(TrimEdges(chunk)), offset, lineNo, ByteLen(TrimEdges(chunk)));
    }
  }

  // --------------------------------------------------------------------- a line

  /** The tokens of the chunks so far all end before the running offset. */
  lemma {:induction false} ChunksTokensWindow(chunks: seq<string>, lineNo: nat)
    ensures InWindow(ChunksTokens(chunks, lineNo), 0, OffsetAfter(chunks), lineNo)
    decreases |chunks|
  {
    if chunks != [] {
      var init := chunks[..|chunks| - 1];
      var last := chunks[|chunks| - 1];
      ChunksTokensWindow(init, lineNo);
      var tokens := ChunkTokens(last, OffsetAfter(init), lineNo);
      assert OffsetAfter(chunks) == OffsetAfter(init) + Advance(last);
      assert ChunksTokens(chunks, lineNo) == ChunksTokens(init, lineNo) + tokens;
      ChunkTokensWindow(last, OffsetAfter(init), lineNo);
      if Skipped(last) {
        assert tokens == [];
      } else {
        InWindowWiden(tokens, OffsetAfter(init), OffsetAfter(init) + ByteLen(TrimEdges(last)),
          0, OffsetAfter(chunks), lineNo);
      }
      InWindowWiden(ChunksTokens(init, lineNo), 0, OffsetAfter(init), 0, OffsetAfter(chunks), lineNo);
      InWindowAppend(ChunksTokens(init, lineNo), tokens, 0, OffsetAfter(chunks), lineNo);
    }
  }

  /**
   * Processing one more chunk appends that chunk's tokens, and every token
   * already emitted for the line ends before any of them starts.
   */
  lemma NextChunkComesAfter(chunks: seq<string>, chunk: string, lineNo: nat)
    ensures ChunksTokens(chunks + [chunk], lineNo) == ChunksTokens(chunks, lineNo) + ChunkTokens(chunk, OffsetAfter(chunks), lineNo)
    ensures forall t, u :: t in ChunksTokens(chunks, lineNo) && u in ChunkTokens(chunk, OffsetAfter(chunks), lineNo) ==>
              t.position.end < u.position.start
  {
    assert (chunks + [chunk])[..|chunks|] == chunks;
    ChunksTokensWindow(chunks, lineNo);
    ChunkTokensWindow(chunk, OffsetAfter(chunks), lineNo);
  }

  /** A chunk leaves the offset where it is exactly when it is skipped. */
  lemma AdvanceZero(chunk: string)
    ensures Advance(chunk) == 0 <==> Skipped(chunk)
  {
  }

  /** The offset of a line is still 0 after some chunks exactly when every one of them was skipped. */
  lemma OffsetAfterZero(chunks: seq<string>)
    ensures OffsetAfter(chunks) == 0 <==> forall c | c in chunks :: Skipped(c)
  {
    OffsetAfterNoAdvance(chunks);
    forall c | c in chunks ensures Skipped(c) <==> Advance(c) == 0 {
      AdvanceZero(c);
    }
  }

  lemma {:induction false} OffsetAfterNoAdvance(chunks: seq<string>)
    ensures OffsetAfter(chunks) == 0 <==> forall c | c in chunks :: Advance(c) == 0
  {
    if chunks != [] {
      var init, last := chunks[..|chunks| - 1], chunks[|chunks| - 1];
      OffsetAfterNoAdvance(init);
      assert chunks == init + [last];
    }
  }

  lemma {:induction false} OffsetAfterSkip(a: seq<string>, chunk: string, b: seq<string>)
    requires Skipped(chunk)
    ensures OffsetAfter(a + [chunk] + b) == OffsetAfter(a + b)
    decreases |b|
  {
    if b == [] {
      assert a + [chunk] + b == a + [chunk] && (a + [chunk])[..|a|] == a;
      assert a + b == a;
    } else {
      var b' := b[..|b| - 1];
      assert (a + [chunk] + b)[..|a + [chunk] + b| - 1] == a + [chunk] + b';
      assert (a + b)[..|a + b| - 1] == a + b';
      OffsetAfterSkip(a, chunk, b');
    }
  }

  /** A chunk that trims to nothing or that an ignore rule matches changes nothing on its line. */
  lemma {:induction false} SkippedChunkInvisible(a: seq<string>, chunk: string, b: seq<string>, lineNo: nat)
    requires Skipped(chunk)
    ensures ChunksTokens(a + [chunk] + b, lineNo) == ChunksTokens(a + b, lineNo)
    decreases |b|
  {
    if b == [] {
      assert a + [chunk] + b == a + [chunk] && (a + [chunk])[..|a|] == a;
      assert a + b == a;
    } else {
      var b' := b[..|b| - 1];
      assert (a + [chunk] + b)[..|a + [chunk] + b| - 1] == a + [chunk] + b';
      assert (a + b)[..|a + b| - 1] == a + b';
      SkippedChunkInvisible(a, chunk, b', lineNo);
      OffsetAfterSkip(a, chunk, b');
    }
  }

  /** The tokens of one line are well formed and carry its number. */
  lemma LineTokensWindow(line: string, lineNo: nat)
    ensures InWindow(LineTokens(line, lineNo), 0, OffsetAfter(SplitWhitespace(line)), lineNo)
  {
    ChunksTokensWindow(SplitWhitespace(line), lineNo);
  }

  // -------------------------------------------------------------------- a file

  /**
   * Every token of a file is well formed and carries a line number between 1
   * and the number of lines, and line numbers never decrease.
   */
  lemma {:induction false} LinesTokensSpec(lines: seq<string>)
    ensures forall k :: 0 <= k < |LinesTokens(lines)| ==>
              WellFormed(LinesTokens(lines)[k]) && 1 <= LinesTokens(lines)[k].position.lineNo <= |lines|
    ensures forall i, j :: 0 <= i < j < |LinesTokens(lines)| ==>
              LinesTokens(lines)[i].position.lineNo <= LinesTokens(lines)[j].position.lineNo
    decreases |lines|
  {
    if lines != [] {
      var init := lines[..|lines| - 1];
      var before := LinesTokens(init);
      var last := LineTokens(lines[|lines| - 1], |lines|);
      LinesTokensSpec(init);
      LineTokensWindow(lines[|lines| - 1], |lines|);
      assert LinesTokens(lines) == before + last;
    }
  }
}
