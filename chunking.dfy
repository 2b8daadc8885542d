/*
 * The first two steps `Tokenizer::tokenize` applies to a line: splitting it on
 * whitespace into chunks (`str::split_whitespace`) and trimming each chunk's
 * edges of characters that are neither alphanumeric nor an apostrophe
 * (`trim_start_matches` followed by `trim_end_matches`).
 */
module Chunking {
  import opened Text

  predicate NotWhitespace(c: char) {
    !IsWhitespace(c)
  }

  /** `str::split_whitespace`: the maximal runs of non-whitespace characters, in order. */
  function SplitWhitespace(line: string): (chunks: seq<string>)
    ensures forall k :: 0 <= k < |chunks| ==> chunks[k] != []
    ensures forall k, j :: 0 <= k < |chunks| && 0 <= j < |chunks[k]| ==> !IsWhitespace(chunks[k][j])
    decreases |line|
  {
    var i := SkipWhile(line, 0, IsWhitespace);
    if i == |line| then []
    else
      var j := SkipWhile(line, i, NotWhitespace);
      [line[i..j]] + SplitWhitespace(line[j..])
  }

  /** A non-empty line without whitespace is a single chunk. */
  lemma SplitWhitespaceSingle(line: string)
    requires line != []
    requires forall k :: 0 <= k < |line| ==> !IsWhitespace(line[k])
    ensures SplitWhitespace(line) == [line]
  {
    assert SkipWhile(line, 0, NotWhitespace) == |line|;
    assert line[|line|..] == [];
    assert line[0..|line|] == line;
  }

  lemma {:induction false} SkipWhileShift(s: string, k: nat, i: nat, p: char -> bool)
    requires k + i <= |s|
    ensures SkipWhile(s[k..], i, p) + k == SkipWhile(s, k + i, p)
    decreases |s| - k - i
  {
    if k + i < |s| && p(s[k + i]) {
      SkipWhileShift(s, k, i + 1, p);
    }
  }

  lemma SplitWhitespaceUnfold(line: string, i: nat, j: nat)
    requires i == SkipWhile(line, 0, IsWhitespace)
    requires i < |line| && j == SkipWhile(line, i, NotWhitespace)
    ensures SplitWhitespace(line) == [line[i..j]] + SplitWhitespace(line[j..])
  {
  }

  /** Two lines whose first chunk is the same text, followed by the same remainder, split alike. */
  lemma SplitWhitespaceSameChunk(line: string, rest: string, i: nat, j: nat)
    requires 1 <= i < |line| && i == SkipWhile(line, 0, IsWhitespace) && j == SkipWhile(line, i, NotWhitespace)
    requires i - 1 < |rest| && i - 1 == SkipWhile(rest, 0, IsWhitespace) && j - 1 == SkipWhile(rest, i - 1, NotWhitespace)
    requires line[i..j] == rest[i - 1..j - 1] && line[j..] == rest[j - 1..]
    ensures SplitWhitespace(line) == SplitWhitespace(rest)
  {
    SplitWhitespaceUnfold(line, i, j);
    SplitWhitespaceUnfold(rest, i - 1, j - 1);
  }

  lemma SplitWhitespaceBlank(line: string)
    requires SkipWhile(line, 0, IsWhitespace) == |line|
    ensures SplitWhitespace(line) == []
  {
  }

  lemma SliceAfterHead(c: char, rest: string, i: nat, j: nat)
    requires 1 <= i <= j <= |rest| + 1
    ensures ([c] + rest)[i..j] == rest[i - 1..j - 1] && ([c] + rest)[j..] == rest[j - 1..]
  {
  }

  /** A leading whitespace character makes no chunk. */
  lemma SplitWhitespaceDropLeading(c: char, rest: string)
    requires IsWhitespace(c)
    ensures SplitWhitespace([c] + rest) == SplitWhitespace(rest)
  {
    var line := [c] + rest;
    assert line[1..] == rest;
    var i := SkipWhile(line, 0, IsWhitespace);
    SkipWhileShift(line, 1, 0, IsWhitespace);
    assert i == SkipWhile(rest, 0, IsWhitespace) + 1;
    if i < |line| {
      var j := SkipWhile(line, i, NotWhitespace);
      SkipWhileShift(line, 1, i - 1, NotWhitespace);
      SliceAfterHead(c, rest, i, j);
      SplitWhitespaceSameChunk(line, rest, i, j);
    } else {
      SplitWhitespaceBlank(line);
      SplitWhitespaceBlank(rest);
    }
  }

  /** The first chunk runs up to the first whitespace character. */
  lemma SplitWhitespaceFirst(a: string, c: char, b: string)
    requires a != [] && forall k :: 0 <= k < |a| ==> !IsWhitespace(a[k])
    requires IsWhitespace(c)
    ensures SplitWhitespace(a + [c] + b) == [a] + SplitWhitespace(b)
  {
    var line := a + [c] + b;
    assert line[0] == a[0];
    assert forall k :: 0 <= k < |a| ==> NotWhitespace(line[k]);
    assert !NotWhitespace(line[|a|]);
    assert SkipWhile(line, 0, NotWhitespace) == |a|;
    assert line[0..|a|] == a;
    assert line[|a|..] == [c] + b;
    SplitWhitespaceDropLeading(c, b);
  }

  /** The line with its whitespace deleted. */
  function DropWhitespace(line: string): string {
    if line == [] then []
    else if IsWhitespace(line[0]) then DropWhitespace(line[1..])
    else [line[0]] + DropWhitespace(line[1..])
  }

  lemma {:induction false} DropWhitespaceAppend(a: string, b: string)
    ensures DropWhitespace(a + b) == DropWhitespace(a) + DropWhitespace(b)
    decreases |a|
  {
    if a != [] {
      assert (a + b)[1..] == a[1..] + b;
      DropWhitespaceAppend(a[1..], b);
    } else {
      assert a + b == b;
    }
  }

  lemma {:induction false} DropWhitespaceAll(s: string)
    requires forall k :: 0 <= k < |s| ==> IsWhitespace(s[k])
    ensures DropWhitespace(s) == []
    decreases |s|
  {
    if s != [] {
      DropWhitespaceAll(s[1..]);
    }
  }

  lemma {:induction false} DropWhitespaceNone(s: string)
    requires forall k :: 0 <= k < |s| ==> !IsWhitespace(s[k])
    ensures DropWhitespace(s) == s
    decreases |s|
  {
    if s != [] {
      DropWhitespaceNone(s[1..]);
      assert s == [s[0]] + s[1..];
    }
  }

  lemma DropWhitespaceAfter(s: string, i: nat)
    requires i <= |s|
    requires forall k :: 0 <= k < i ==> IsWhitespace(s[k])
    ensures DropWhitespace(s) == DropWhitespace(s[i..])
  {
    assert s == s[..i] + s[i..];
    DropWhitespaceAll(s[..i]);
    DropWhitespaceAppend(s[..i], s[i..]);
  }

  lemma DropWhitespaceKeeps(s: string, i: nat, j: nat)
    requires i <= j <= |s|
    requires forall k :: i <= k < j ==> !IsWhitespace(s[k])
    ensures DropWhitespace(s[i..]) == s[i..j] + DropWhitespace(s[j..])
  {
    assert s[i..] == s[i..j] + s[j..];
    DropWhitespaceNone(s[i..j]);
    DropWhitespaceAppend(s[i..j], s[j..]);
  }

  /** Splitting on whitespace loses nothing but the whitespace itself. */
  lemma {:induction false} SplitWhitespaceKeepsText(line: string)
    ensures Concat(SplitWhitespace(line)) == DropWhitespace(line)
    decreases |line|
  {
    var i := SkipWhile(line, 0, IsWhitespace);
    DropWhitespaceAfter(line, i);
    if i < |line| {
      var j := SkipWhile(line, i, NotWhitespace);
      DropWhitespaceKeeps(line, i, j);
      SplitWhitespaceKeepsText(line[j..]);
      ConcatCons(line[i..j], SplitWhitespace(line[j..]));
    }
  }

  /** The characters `trim_start_matches`/`trim_end_matches` strip from a chunk's edges. */
  predicate IsEdgeNoise(c: char) {
    !IsAlnum(c) && c != '\''
  }

  function TrimStartIndex(chunk: string): nat
    ensures TrimStartIndex(chunk) <= |chunk|
  {
    SkipWhile(chunk, 0, IsEdgeNoise)
  }

  function TrimEndIndex(chunk: string): nat
    ensures TrimStartIndex(chunk) <= TrimEndIndex(chunk) <= |chunk|
  {
    SkipBackWhile(chunk, TrimStartIndex(chunk), |chunk|, IsEdgeNoise)
  }

  /**
   * The chunk with its leading, then its trailing, edge noise removed: nothing
   * is left only when the chunk is all noise, and otherwise the text kept
   * begins and ends with a character worth keeping.
   */
  function TrimEdges(chunk: string): (trimmed: string)
    ensures trimmed == [] <==> forall k :: 0 <= k < |chunk| ==> IsEdgeNoise(chunk[k])
    ensures trimmed != [] ==> !IsEdgeNoise(trimmed[0]) && !IsEdgeNoise(trimmed[|trimmed| - 1])
  {
    chunk[TrimStartIndex(chunk)..TrimEndIndex(chunk)]
  }

  /**
   * Trimming keeps a contiguous slice of the chunk and removes only edge
   * noise, on either side.
   */
  lemma TrimEdgesSpec(chunk: string)
    ensures TrimEdges(chunk) == chunk[TrimStartIndex(chunk)..TrimEndIndex(chunk)]
    ensures forall k :: 0 <= k < TrimStartIndex(chunk) ==> IsEdgeNoise(chunk[k])
    ensures forall k :: TrimEndIndex(chunk) <= k < |chunk| ==> IsEdgeNoise(chunk[k])
  {
  }

  /** Trimming a trimmed chunk changes nothing. */
  lemma TrimEdgesIdempotent(chunk: string)
    ensures TrimEdges(TrimEdges(chunk)) == TrimEdges(chunk)
  {
    var t := TrimEdges(chunk);
    TrimEdgesSpec(chunk);
    if t != [] {
      assert TrimStartIndex(t) == 0;
      assert TrimEndIndex(t) == |t|;
    }
  }
}
