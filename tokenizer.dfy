/*
 * `Tokenizer`: an object whose token list is only ever appended to (by
 * `tokenize`) or emptied (by `clear_tokens`).  `Tokenize` runs the source's
 * nested loops over lines, chunks, sub-chunks, matches and case segments, one
 * method per loop level, and each level is proved to append exactly what the
 * matching function of `Pipeline` describes.
 *
 * The compiled regexes the source keeps in its `patterns` field are fixed, so
 * they are the module-level rules of `Patterns` here.  The file is replaced by
 * the sequence of its lines.
 */
module Tokenization {
  import opened Text
  import opened Chunking
  import opened Patterns
  import opened CaseSplit
  import opened Tokens
  import opened Pipeline

  lemma AppendAssoc(a: seq<Token>, b: seq<Token>, c: seq<Token>)
    ensures a + b + c == a + (b + c)
  {
  }

  lemma SegmentTokensSnoc(segments: seq<string>, k: nat, start: nat, end: nat, lineNo: nat)
    requires k < |segments|
    ensures SegmentTokens(segments[..k + 1], start, end, lineNo)
         == SegmentTokens(segments[..k], start, end, lineNo) + [NewToken(segments[k], start, end, lineNo)]
  {
  }

  lemma SpansTokensPrefix(sub: string, ms: seq<Span>, k: nat, offset: nat, lineNo: nat)
    requires ValidSpans(sub, ms) && k < |ms|
    ensures ValidSpans(sub, ms[..k]) && ValidSpans(sub, ms[..k + 1])
    ensures SpansTokens(sub, ms[..k + 1], offset, lineNo)
         == SpansTokens(sub, ms[..k], offset, lineNo) + MatchTokens(sub, ms[k], offset, lineNo)
  {
    assert ms[..k + 1][..k] == ms[..k];
  }

  lemma SubChunksTokensPrefix(subs: seq<string>, k: nat, offset: nat, lineNo: nat)
    requires k < |subs|
    ensures SubChunksTokens(subs[..k + 1], offset, lineNo)
         == SubChunksTokens(subs[..k], offset, lineNo) + SubChunkTokens(subs[k], offset, lineNo)
  {
    assert subs[..k + 1][..k] == subs[..k];
  }

  lemma ChunksTokensPrefix(chunks: seq<string>, k: nat, lineNo: nat)
    requires k < |chunks|
    ensures ChunksTokens(chunks[..k + 1], lineNo)
         == ChunksTokens(chunks[..k], lineNo) + ChunkTokens(chunks[k], OffsetAfter(chunks[..k]), lineNo)
    ensures OffsetAfter(chunks[..k + 1]) == OffsetAfter(chunks[..k]) + Advance(chunks[k])
  {
    assert chunks[..k + 1][..k] == chunks[..k];
  }

  /** One more chunk of a line: its tokens follow those already appended, and its advance moves the offset. */
  lemma ChunksTokensStep(before: seq<Token>, chunks: seq<string>, k: nat, lineNo: nat)
    requires k < |chunks|
    ensures before + ChunksTokens(chunks[..k + 1], lineNo)
         == before + ChunksTokens(chunks[..k], lineNo) + ChunkTokens(chunks[k], OffsetAfter(chunks[..k]), lineNo)
    ensures OffsetAfter(chunks[..k + 1]) == OffsetAfter(chunks[..k]) + Advance(chunks[k])
  {
    ChunksTokensPrefix(chunks, k, lineNo);
    AppendAssoc(before, ChunksTokens(chunks[..k], lineNo), ChunkTokens(chunks[k], OffsetAfter(chunks[..k]), lineNo));
  }

  lemma LinesTokensPrefix(lines: seq<string>, k: nat)
    requires k < |lines|
    ensures LinesTokens(lines[..k + 1]) == LinesTokens(lines[..k]) + LineTokens(lines[k], k + 1)
  {
    assert lines[..k + 1][..k] == lines[..k];
  }

  class Tokenizer {
    /** The tokens parsed so far, in the order they were pushed. */
    var tokens: seq<Token>

    /** `Tokenizer::new`: no tokens yet. */
    constructor()
      ensures tokens == []
    {
      tokens := [];
    }

    /** `Tokenizer::tokens`. */
    function Tokens(): seq<Token>
      reads this
    {
      tokens
    }

    /** `clear_tokens`: the list is emptied. */
    method ClearTokens()
      modifies this
      ensures tokens == []
    {
      tokens := [];
    }

    /**
     * `tokenize`, with the file given as its lines: the tokens already held stay
     * as they are, and those of every line follow in order, line `i` of
     * `lines` being numbered `i + 1`.
     */
    method Tokenize(lines: seq<string>)
      modifies this
      ensures tokens == old(tokens) + LinesTokens(lines)
    {
      for i := 0 to |lines|
        invariant tokens == old(tokens) + LinesTokens(lines[..i])
      {
        LinesTokensPrefix(lines, i);
        ghost var done := LinesTokens(lines[..i]);
        TokenizeLine(lines[i], i + 1);
        AppendAssoc(old(tokens), done, LineTokens(lines[i], i + 1));
      }
      assert lines[..|lines|] == lines;
    }

    /** The body of the loop over lines: `offset` starts at 0 and moves past each chunk kept. */
    method TokenizeLine(line: string, lineNo: nat)
      modifies this
      ensures tokens == old(tokens) + LineTokens(line, lineNo)
    {
      var chunks := SplitWhitespace(line);
      var offset := 0;
      for k := 0 to |chunks|
        invariant offset == OffsetAfter(chunks[..k])
        invariant tokens == old(tokens) + ChunksTokens(chunks[..k], lineNo)
      {
        ChunksTokensStep(old(tokens), chunks, k, lineNo);
        var advance := TokenizeChunk(chunks[k], offset, lineNo);
        offset := offset + advance;
      }
      assert chunks[..|chunks|] == chunks;
    }

    /**
     * The body of the loop over chunks: trim, drop the chunk if it is empty or
     * ignored (leaving `offset` where it is), otherwise tokenize each piece
     * between separators and move `offset` past the trimmed chunk and one byte.
     */
    method TokenizeChunk(chunk: string, offset: nat, lineNo: nat) returns (advance: nat)
      modifies this
      ensures tokens == old(tokens) + ChunkTokens(chunk, offset, lineNo)
      ensures advance == Advance(chunk)
    {
      var trimmed := TrimEdges(chunk);
      if trimmed == [] {
        return 0;
      }
      if IsIgnored(trimmed) {
        return 0;
      }
      var subChunks := SplitSeparators(trimmed);
      for k := 0 to |subChunks|
        invariant tokens == old(tokens) + SubChunksTokens(subChunks[..k], offset, lineNo)
      {
        SubChunksTokensPrefix(subChunks, k, offset, lineNo);
        ghost var done := SubChunksTokens(subChunks[..k], offset, lineNo);
        TokenizeSubChunk(subChunks[k], offset, lineNo);
        AppendAssoc(old(tokens), done, SubChunkTokens(subChunks[k], offset, lineNo));
      }
      assert subChunks[..|subChunks|] == subChunks;
      advance := ByteLen(trimmed) + 1;
    }

    /** The body of the loop over sub-chunks: skip an empty one, else visit each word-pattern match. */
    method TokenizeSubChunk(sub: string, offset: nat, lineNo: nat)
      modifies this
      ensures tokens == old(tokens) + SubChunkTokens(sub, offset, lineNo)
    {
      if sub == [] {
        return;
      }
      var matches := WordMatches(sub);
      for k := 0 to |matches|
        invariant tokens == old(tokens) + SpansTokens(sub, matches[..k], offset, lineNo)
      {
        SpansTokensPrefix(sub, matches, k, offset, lineNo);
        ghost var done := SpansTokens(sub, matches[..k], offset, lineNo);
        PushMatch(sub, matches[k], offset, lineNo);
        AppendAssoc(old(tokens), done, MatchTokens(sub, matches[k], offset, lineNo));
      }
      assert matches[..|matches|] == matches;
    }

    /**
     * The body of the loop over matches: a match one byte long is passed over;
     * otherwise one token is pushed per case segment, all with the bounds of
     * the match.
     */
    method PushMatch(sub: string, m: Span, offset: nat, lineNo: nat)
      requires m.start < m.end <= |sub|
      modifies this
      ensures tokens == old(tokens) + MatchTokens(sub, m, offset, lineNo)
    {
      var word := sub[m.start..m.end];
      if ByteLen(word) == 1 {
        return;
      }
      var segments := SplitWordCases(word);
      var start := offset + ByteLen(sub[..m.start]);
      var end := offset + ByteLen(sub[..m.end]);
      ByteLenPrefix(sub, m.start, m.end);
      for k := 0 to |segments|
        invariant tokens == old(tokens) + SegmentTokens(segments[..k], start, end - 1, lineNo)
      {
        SegmentTokensSnoc(segments, k, start, end - 1, lineNo);
        tokens := tokens + [NewToken(segments[k], start, end - 1, lineNo)];
      }
      assert segments[..|segments|] == segments;
    }
  }
}
