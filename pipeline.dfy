/*
 * `Position`, `Token`, and what `Tokenizer::tokenize` appends for a sequence of
 * lines, as functions layered like the loops of the source: one word-pattern
 * match, one sub-chunk, one chunk, one line, all lines.
 *
 * The positions follow the code wherever the chunk's edges are ASCII (a
 * non-ASCII letter or digit at an edge is trimmed here but kept by the code,
 * whose `is_alphanumeric` is Unicode's):
 *  - `offset` starts at 0 on every line and grows, after each chunk that is
 *    neither empty after trimming nor ignored, by the TRIMMED chunk's byte
 *    length plus one; skipped chunks leave it unchanged;
 *  - a token's bounds are `offset` plus the match's byte bounds WITHIN ITS
 *    SUB-CHUNK, with an inclusive end;
 *  - every segment of one case split carries the bounds of the whole match.
 */
module Tokens {

  /** Byte bounds (`end` inclusive) and 1-based line number of a token. */
  datatype Position = Position(start: nat, end: nat, lineNo: nat)

  /** A word to be spell checked, with its position; the getters are the field names. */
  datatype Token = Token(word: string, position: Position)

  /** `Token::new`: its getters give back exactly the word and the numbers it was built from. */
  function NewToken(word: string, start: nat, end: nat, lineNo: nat): (t: Token)
    ensures t.word == word
    ensures t.position.start == start && t.position.end == end && t.position.lineNo == lineNo
  {
    Token(word, Position(start, end, lineNo))
  }
}

module Pipeline {
  import opened Text
  import opened Chunking
  import opened Patterns
  import opened CaseSplit
  import opened Tokens

  /** One token per segment, all with the same bounds. */
  function SegmentTokens(segments: seq<string>, start: nat, end: nat, lineNo: nat): (tokens: seq<Token>)
    ensures |tokens| == |segments|
    ensures forall k :: 0 <= k < |tokens| ==> tokens[k].position == Position(start, end, lineNo)
  {
    seq(|segments|, k requires 0 <= k < |segments| => NewToken(segments[k], start, end, lineNo))
  }

  /**
   * The tokens pushed for the word-pattern match `m` of sub-chunk `sub`: none
   * for a one-byte match, otherwise at least one, all on line `lineNo`.
   */
  function MatchTokens(sub: string, m: Span, offset: nat, lineNo: nat): (tokens: seq<Token>)
    requires m.start < m.end <= |sub|
    ensures tokens == [] <==> ByteLen(sub[m.start..m.end]) == 1
  {
    var word := sub[m.start..m.end];
    if ByteLen(word) == 1 then []
    else
      var segments := CaseSegments(word);
      var tokens := SegmentTokens(segments, offset + ByteLen(sub[..m.start]), offset + ByteLen(sub[..m.end]) - 1, lineNo);
      assert |tokens| == |segments| >= 1;
      tokens
  }

  /** The tokens pushed for the matches `ms` of `sub`, in order. */
  function SpansTokens(sub: string, ms: seq<Span>, offset: nat, lineNo: nat): (tokens: seq<Token>)
    requires ValidSpans(sub, ms)
    ensures forall k :: 0 <= k < |tokens| ==> tokens[k].position.lineNo == lineNo
  {
    if ms == [] then []
    else SpansTokens(sub, ms[..|ms| - 1], offset, lineNo) + MatchTokens(sub, ms[|ms| - 1], offset, lineNo)
  }

  /** The tokens of one piece between separators: none for an empty piece, all on line `lineNo`. */
  function SubChunkTokens(sub: string, offset: nat, lineNo: nat): (tokens: seq<Token>)
    ensures sub == [] ==> tokens == []
    ensures forall k :: 0 <= k < |tokens| ==> tokens[k].position.lineNo == lineNo
  {
    if sub == [] then [] else SpansTokens(sub, WordMatches(sub), offset, lineNo)
  }

  function SubChunksTokens(subs: seq<string>, offset: nat, lineNo: nat): (tokens: seq<Token>)
    ensures forall k :: 0 <= k < |tokens| ==> tokens[k].position.lineNo == lineNo
  {
    if subs == [] then []
    else SubChunksTokens(subs[..|subs| - 1], offset, lineNo) + SubChunkTokens(subs[|subs| - 1], offset, lineNo)
  }

  /** A chunk that is empty after trimming, or that an ignore rule matches, is passed over. */
  predicate Skipped(chunk: string) {
    TrimEdges(chunk) == [] || IsIgnored(TrimEdges(chunk))
  }

  /** The tokens of one whitespace-delimited chunk, starting at `offset`: none if it is skipped. */
  function ChunkTokens(chunk: string, offset: nat, lineNo: nat): (tokens: seq<Token>)
    ensures Skipped(chunk) ==> tokens == []
    ensures forall k :: 0 <= k < |tokens| ==> tokens[k].position.lineNo == lineNo
  {
    if Skipped(chunk) then [] else SubChunksTokens(SplitSeparators(TrimEdges(chunk)), offset, lineNo)
  }

  /** How far a chunk moves the running offset: not at all when the chunk is skipped. */
  function Advance(chunk: string): nat {
    if Skipped(chunk) then 0 else ByteLen(TrimEdges(chunk)) + 1
  }

  /** The running offset after the chunks `chunks` of a line. */
  function OffsetAfter(chunks: seq<string>): nat {
    if chunks == [] then 0 else OffsetAfter(chunks[..|chunks| - 1]) + Advance(chunks[|chunks| - 1])
  }

  function ChunksTokens(chunks: seq<string>, lineNo: nat): (tokens: seq<Token>)
    ensures forall k :: 0 <= k < |tokens| ==> tokens[k].position.lineNo == lineNo
  {
    if chunks == [] then []
    else
      var init := chunks[..|chunks| - 1];
      ChunksTokens(init, lineNo) + ChunkTokens(chunks[|chunks| - 1], OffsetAfter(init), lineNo)
  }

  /** The tokens of line number `lineNo`, each carrying that number. */
  function LineTokens(line: string, lineNo: nat): (tokens: seq<Token>)
    ensures forall k :: 0 <= k < |tokens| ==> tokens[k].position.lineNo == lineNo
  {
    ChunksTokens(SplitWhitespace(line), lineNo)
  }

  /** The tokens `tokenize` appends for a file with these lines; line numbers run from 1 to the number of lines. */
  function LinesTokens(lines: seq<string>): (tokens: seq<Token>)
    ensures forall k :: 0 <= k < |tokens| ==> 1 <= tokens[k].position.lineNo <= |lines|
  {
    if lines == [] then []
    else LinesTokens(lines[..|lines| - 1]) + LineTokens(lines[|lines| - 1], |lines|)
  }
}
