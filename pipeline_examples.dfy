/*
 * Chunks worked through the pipeline: the ignore rules and the split pattern
 * on the examples they were written for, plain words, and words joined by
 * separators.  Offsets and line numbers are left open, and most lemmas hold
 * for every word of a given shape rather than for one literal.
 */
module PipelineExamples {
  import opened Text
  import opened Chunking
  import opened Patterns
  import opened CaseSplit
  import opened CaseSplitExamples
  import opened Tokens
  import opened Pipeline

  // ------------------------------------------------------------- unfolding steps

  lemma SpansTokensOne(sub: string, m: Span, offset: nat, lineNo: nat)
    requires m.start < m.end <= |sub|
    ensures SpansTokens(sub, [m], offset, lineNo) == MatchTokens(sub, m, offset, lineNo)
  {
    assert [m][..0] == [];
  }

  lemma SpansTokensTwo(sub: string, m1: Span, m2: Span, offset: nat, lineNo: nat)
    requires m1.start < m1.end <= |sub| && m2.start < m2.end <= |sub|
    ensures SpansTokens(sub, [m1, m2], offset, lineNo)
         == MatchTokens(sub, m1, offset, lineNo) + MatchTokens(sub, m2, offset, lineNo)
  {
    assert [m1, m2][..1] == [m1];
    SpansTokensOne(sub, m1, offset, lineNo);
  }

  lemma SubChunksTokensOne(sub: string, offset: nat, lineNo: nat)
    ensures SubChunksTokens([sub], offset, lineNo) == SubChunkTokens(sub, offset, lineNo)
  {
    assert [sub][..0] == [];
  }

  lemma SubChunksTokensTwo(sub1: string, sub2: string, offset: nat, lineNo: nat)
    ensures SubChunksTokens([sub1, sub2], offset, lineNo)
         == SubChunkTokens(sub1, offset, lineNo) + SubChunkTokens(sub2, offset, lineNo)
  {
    assert [sub1, sub2][..1] == [sub1];
    SubChunksTokensOne(sub1, offset, lineNo);
  }

  // ------------------------------------------------------------- plain words

  predicate AllLetters(w: string) {
    forall k :: 0 <= k < |w| ==> IsAsciiLetter(w[k])
  }

  /** A word of two or more ASCII letters in which the case rule finds nothing to split. */
  predicate PlainWord(w: string) {
    |w| >= 2 && AllLetters(w) && NoTransition(w)
  }

  /** A word with no capital after its first letter has no case transition. */
  lemma LowerTailNoTransition(w: string)
    requires forall i :: 0 < i < |w| ==> !IsAsciiUpper(w[i])
    ensures NoTransition(w)
  {
  }

  /** A match of two or more ASCII characters without a case transition gives one token, the match itself. */
  lemma PlainMatchTokens(sub: string, m: Span, offset: nat, lineNo: nat)
    requires m.start + 1 < m.end <= |sub|
    requires AllAscii(sub[..m.end]) && NoTransition(sub[m.start..m.end])
    ensures MatchTokens(sub, m, offset, lineNo)
         == [NewToken(sub[m.start..m.end], offset + m.start, offset + m.end - 1, lineNo)]
  {
    assert sub[..m.start] == sub[..m.end][..m.start];
    assert sub[m.start..m.end] == sub[..m.end][m.start..];
    AsciiByteLen(sub[..m.end]);
    AsciiByteLen(sub[..m.start]);
    AsciiByteLen(sub[m.start..m.end]);
    CaseSegmentsSingle(sub[m.start..m.end]);
  }

  /** A run of letters is one match of the word pattern. */
  lemma LettersMatchWhole(w: string)
    requires w != [] && AllLetters(w)
    ensures WordMatches(w) == [Span(0, |w|)]
  {
    assert SkipWhile(w, 0, NotAsciiLetter) == 0;
    assert SkipWhile(w, 0, IsAsciiLetter) == |w|;
    assert NextMatch(w, 0) == Some(Span(0, |w|));
    assert MatchesFrom(w, |w|) == [];
  }

  lemma PlainWordTokens(w: string, offset: nat, lineNo: nat)
    requires PlainWord(w)
    ensures SubChunkTokens(w, offset, lineNo) == [NewToken(w, offset, offset + |w| - 1, lineNo)]
  {
    var m := Span(0, |w|);
    LettersMatchWhole(w);
    SpansTokensOne(w, m, offset, lineNo);
    assert w[..|w|] == w && w[0..|w|] == w;
    PlainMatchTokens(w, m, offset, lineNo);
    calc {
      SubChunkTokens(w, offset, lineNo);
      SpansTokens(w, [m], offset, lineNo);
      MatchTokens(w, m, offset, lineNo);
    }
  }

  /**
   * A chunk that is a plain word gives one token spanning it, and moves the
   * offset past it and one more byte.
   */
  lemma PlainWordChunk(w: string, offset: nat, lineNo: nat)
    requires PlainWord(w)
    ensures ChunkTokens(w, offset, lineNo) == [NewToken(w, offset, offset + |w| - 1, lineNo)]
    ensures Advance(w) == |w| + 1
  {
    KeptEdgesTrimToThemselves(w);
    PlainChunkIsNotIgnored(w);
    AsciiByteLen(w);
    SplitSeparatorsNone(w);
    SubChunksTokensOne(w, offset, lineNo);
    PlainWordTokens(w, offset, lineNo);
  }

  // ----------------------------------------------------------------- the rules

  lemma UrlExample()
    ensures RuleMatches(Url, "https://example.com")
  {
    var s := "https://example.com";
    assert HasAt(s, 0, "https://");
    assert UrlStartsAt(s, 0);
  }

  lemma FilePathExample()
    ensures RuleMatches(FilePath, "src/main.rs")
  {
    var s := "src/main.rs";
    assert s[3] == '/' && IsPathChar(s[2]) && IsPathChar(s[4]);
    assert PathSlashAt(s, 3);
  }

  lemma NumberExample()
    ensures RuleMatches(Number, "404")
  {
    var s := "404";
    assert WordBoundary(s, 0) && WordBoundary(s, 3);
    assert forall k | 0 <= k < 3 :: IsAsciiDigit(s[k]);
    assert NumberAt(s, 0, 3);
  }

  /** A dash is no word character, so `\b\d+\b` finds the digits of `foo-123`. */
  lemma DashedNumberExample()
    ensures RuleMatches(Number, "foo-123")
  {
    var s := "foo-123";
    assert WordBoundary(s, 4) && WordBoundary(s, 7);
    assert forall k | 4 <= k < 7 :: IsAsciiDigit(s[k]);
    assert NumberAt(s, 4, 7);
  }

  lemma RegexLiteralExample()
    ensures RuleMatches(RegexLiteral, "\\d{2}")
  {
    var s := "\\d{2}";
    assert s[0] == '\\' && IsAsciiLetter(s[1]);
    assert BackslashLetterAt(s, 0);
  }

  lemma EmailExample()
    ensures RuleMatches(Email, "me@test.com")
  {
    var s := "me@test.com";
    assert WordBoundary(s, 0) && WordBoundary(s, 11);
    assert s[2] == '@' && s[7] == '.';
    assert forall k | 0 <= k < 2 :: IsEmailLocalChar(s[k]);
    assert forall k | 2 < k < 7 :: IsEmailDomainChar(s[k]);
    assert forall k | 7 < k < 11 :: IsAsciiLetter(s[k]);
    assert EmailAt(s, 0, 2, 7, 11);
  }

  /**
   * Each of the five rules drops a chunk it was written for, and `foo-123` goes
   * with the numbers: these chunks are their own trimmed form, so the rules see
   * them whole.
   */
  lemma IgnoreRuleExamples()
    ensures Skipped("https://example.com") && Skipped("src/main.rs") && Skipped("404")
    ensures Skipped("foo-123") && Skipped("me@test.com")
  {
    UrlExample();
    WholeChunkIgnored("https://example.com", Url);
    FilePathExample();
    WholeChunkIgnored("src/main.rs", FilePath);
    NumberExample();
    WholeChunkIgnored("404", Number);
    DashedNumberExample();
    WholeChunkIgnored("foo-123", Number);
    EmailExample();
    WholeChunkIgnored("me@test.com", Email);
  }

  /** A chunk that is its own trimmed form is dropped as soon as one rule matches it. */
  lemma WholeChunkIgnored(chunk: string, rule: IgnoreRule)
    requires chunk != [] && !IsEdgeNoise(chunk[0]) && !IsEdgeNoise(chunk[|chunk| - 1])
    requires RuleMatches(rule, chunk)
    ensures Skipped(chunk)
  {
    KeptEdgesTrimToThemselves(chunk);
  }

  /**
   * The rules see the TRIMMED chunk, and trimming removes a leading backslash:
   * `\d{2}` reaches them as `d{2`, which the backslash rule does not match,
   * and is dropped only because `\b\d+\b` finds the `2`.
   */
  lemma RegexLiteralChunkTrimmed()
    ensures TrimEdges("\\d{2}") == "d{2"
    ensures !RuleMatches(RegexLiteral, "d{2") && RuleMatches(Number, "d{2")
    ensures Skipped("\\d{2}")
  {
    var s := "\\d{2}";
    SkipWhileStops(s, 0, 1, IsEdgeNoise);
    assert TrimStartIndex(s) == 1;
    SkipBackWhileStops(s, 1, 5, 4, IsEdgeNoise);
    assert TrimEndIndex(s) == 4;
    assert s[1..4] == "d{2";
    var t := "d{2";
    assert WordBoundary(t, 2) && WordBoundary(t, 3);
    assert forall k | 2 <= k < 3 :: IsAsciiDigit(t[k]);
    assert NumberAt(t, 2, 3);
    assert RuleMatches(Number, t) && Number in IgnorePatterns;
  }

  /** Chunks that trim to the same text give the same tokens and the same advance. */
  lemma SameTrimSameTokens(c: string, d: string, offset: nat, lineNo: nat)
    requires TrimEdges(c) == TrimEdges(d)
    ensures Skipped(c) == Skipped(d)
    ensures ChunkTokens(c, offset, lineNo) == ChunkTokens(d, offset, lineNo)
    ensures Advance(c) == Advance(d)
  {
  }

  /**
   * A word behind a leading noise character is kept without it: the
   * backslash rule never sees the backslash, so `\section` is not dropped
   * and gives the token `section`.
   */
  lemma LeadingNoiseDropped(s: string, c: char, w: string, offset: nat, lineNo: nat)
    requires s == [c] + w && IsEdgeNoise(c) && PlainWord(w)
    ensures !Skipped(s)
    ensures ChunkTokens(s, offset, lineNo) == [NewToken(w, offset, offset + |w| - 1, lineNo)]
    ensures Advance(s) == |w| + 1
  {
    SkipWhileStops(s, 0, 1, IsEdgeNoise);
    assert TrimStartIndex(s) == 1;
    assert TrimEndIndex(s) == |s|;
    assert s[1..|s|] == w;
    KeptEdgesTrimToThemselves(w);
    SameTrimSameTokens(s, w, offset, lineNo);
    PlainWordChunk(w, offset, lineNo);
  }

  /** `\section`: a LaTeX command that the backslash rule was written for still yields a token. */
  lemma BackslashCommandKept(offset: nat, lineNo: nat)
    ensures MatchesRegexLiteral("\\section") && !Skipped("\\section")
    ensures ChunkTokens("\\section", offset, lineNo) == [NewToken("section", offset, offset + 6, lineNo)]
  {
    var w := "section";
    var s := "\\section";
    assert s == ['\\'] + w;
    assert s[0] == '\\' && IsAsciiLetter(s[1]);
    assert BackslashLetterAt(s, 0);
    LowerTailNoTransition(w);
    LeadingNoiseDropped(s, '\\', w, offset, lineNo);
  }

  // --------------------------------------------------------------- separators

  lemma SplitAtOne(a: string, sep: char, b: string)
    requires forall k :: 0 <= k < |a| ==> !IsSeparator(a[k])
    requires forall k :: 0 <= k < |b| ==> !IsSeparator(b[k])
    requires IsSeparator(sep)
    ensures SplitSeparators(a + [sep] + b) == [a, b]
  {
    SplitSeparatorsFirst(a, sep, b);
    SplitSeparatorsNone(b);
  }

  /** The split pattern's own examples: `snake_case`, `Get-Item`, `run—but`. */
  lemma SeparatorExamples()
    ensures SplitSeparators("snake_case") == ["snake", "case"]
    ensures SplitSeparators("Get-Item") == ["Get", "Item"]
    ensures SplitSeparators("run—but") == ["run", "but"]
  {
    assert "snake_case" == "snake" + ['_'] + "case";
    SplitAtOne("snake", '_', "case");
    assert "Get-Item" == "Get" + ['-'] + "Item";
    SplitAtOne("Get", '-', "Item");
    assert "run—but" == "run" + ['—'] + "but";
    SplitAtOne("run", '—', "but");
  }

  // ------------------------------------------------------------ one chunk

  /** A chunk whose first and last characters are kept by trimming is its own trimmed form. */
  lemma KeptEdgesTrimToThemselves(s: string)
    requires s != [] && !IsEdgeNoise(s[0]) && !IsEdgeNoise(s[|s| - 1])
    ensures TrimEdges(s) == s
  {
    assert TrimStartIndex(s) == 0;
    assert TrimEndIndex(s) == |s|;
    assert s[0..|s|] == s;
  }

  /** A chunk of letters, dots and separators with letters at both ends is kept as it is. */
  lemma LetterChunkKept(c: string)
    requires c != [] && IsAsciiLetter(c[0]) && IsAsciiLetter(c[|c| - 1])
    requires forall k :: 0 <= k < |c| ==> IsSeparator(c[k]) || c[k] == '.' || IsAsciiLetter(c[k])
    ensures TrimEdges(c) == c && !Skipped(c)
  {
    KeptEdgesTrimToThemselves(c);
    PlainChunkIsNotIgnored(c);
  }

  /** Two plain words joined by a separator form a chunk that is kept and split in two. */
  lemma SeparatedPlainWordsSplit(p: string, sep: char, q: string)
    requires PlainWord(p) && PlainWord(q) && IsSeparator(sep)
    ensures !Skipped(p + [sep] + q)
    ensures SplitSeparators(TrimEdges(p + [sep] + q)) == [p, q]
  {
    var c := p + [sep] + q;
    assert c[0] == p[0] && c[|c| - 1] == q[|q| - 1];
    assert forall k :: 0 <= k < |c| ==> c[k] == sep || IsAsciiLetter(c[k]);
    LetterChunkKept(c);
    SplitSeparatorsPair(p, sep, q);
  }

  /** Two pieces without separators, joined by one separator, split back into the two. */
  lemma SplitSeparatorsPair(a: string, sep: char, b: string)
    requires forall k :: 0 <= k < |a| ==> !IsSeparator(a[k])
    requires forall k :: 0 <= k < |b| ==> !IsSeparator(b[k])
    requires IsSeparator(sep)
    ensures SplitSeparators(a + [sep] + b) == [a, b]
  {
    SplitSeparatorsFirst(a, sep, b);
    SplitSeparatorsNone(b);
    assert [a] + [b] == [a, b];
  }

  /**
   * Both words of `p<sep>q` are placed at the chunk's own offset: positions
   * are measured from the start of each separator-delimited piece, so inside
   * a chunk a later token can start before an earlier one ends.
   */
  lemma SeparatedPlainWords(p: string, sep: char, q: string, offset: nat, lineNo: nat)
    requires PlainWord(p) && PlainWord(q) && IsSeparator(sep)
    ensures ChunkTokens(p + [sep] + q, offset, lineNo)
         == [NewToken(p, offset, offset + |p| - 1, lineNo), NewToken(q, offset, offset + |q| - 1, lineNo)]
  {
    SeparatedPlainWordsSplit(p, sep, q);
    SubChunksTokensTwo(p, q, offset, lineNo);
    PlainWordTokens(p, offset, lineNo);
    PlainWordTokens(q, offset, lineNo);
  }

  /** `snake_case` at any offset: `case` starts where `snake` does. */
  lemma SnakeCaseChunk(offset: nat, lineNo: nat)
    ensures ChunkTokens("snake_case", offset, lineNo)
         == [NewToken("snake", offset, offset + 4, lineNo), NewToken("case", offset, offset + 3, lineNo)]
  {
    SnakeCaseParts();
    SeparatedPlainWords("snake", '_', "case", offset, lineNo);
  }

  lemma SnakeCaseParts()
    ensures PlainWord("snake") && PlainWord("case") && IsSeparator('_')
    ensures "snake_case" == "snake" + ['_'] + "case"
  {
    LowerTailNoTransition("snake");
    LowerTailNoTransition("case");
  }

  // ------------------------------------------------- two matches in one piece

  /** `p.q` with `p` and `q` runs of letters holds the two matches `p` and `q`. */
  lemma DottedMatches(p: string, q: string)
    requires p != [] && q != [] && AllLetters(p) && AllLetters(q)
    ensures WordMatches(p + ['.'] + q) == [Span(0, |p|), Span(|p| + 1, |p| + 1 + |q|)]
  {
    var s := p + ['.'] + q;
    var n := |s|;
    assert forall k :: 0 <= k < |p| ==> s[k] == p[k];
    assert forall k :: |p| < k < n ==> s[k] == q[k - |p| - 1];
    SkipWhileStops(s, 0, 0, NotAsciiLetter);
    SkipWhileStops(s, 0, |p|, IsAsciiLetter);
    SkipWhileStops(s, |p|, |p|, IsAsciiDigit);
    SkipWhileStops(s, |p|, |p|, IsAsciiLetter);
    assert NextMatch(s, 0) == Some(Span(0, |p|));
    SkipWhileStops(s, |p|, |p| + 1, NotAsciiLetter);
    SkipWhileStops(s, |p| + 1, n, IsAsciiLetter);
    SkipWhileStops(s, n, n, IsAsciiDigit);
    SkipWhileStops(s, n, n, IsAsciiLetter);
    assert NextMatch(s, |p|) == Some(Span(|p| + 1, n));
    assert MatchesFrom(s, n) == [];
    assert MatchesFrom(s, |p|) == [Span(|p| + 1, n)];
    assert MatchesFrom(s, 0) == [Span(0, |p|)] + [Span(|p| + 1, n)];
  }

  lemma DottedFirstMatch(p: string, q: string, offset: nat, lineNo: nat)
    requires PlainWord(p) && AllLetters(q)
    ensures MatchTokens(p + ['.'] + q, Span(0, |p|), offset, lineNo)
         == [NewToken(p, offset, offset + |p| - 1, lineNo)]
  {
    var s := p + ['.'] + q;
    assert s[0..|p|] == p && s[..|p|] == p;
    PlainMatchTokens(s, Span(0, |p|), offset, lineNo);
  }

  lemma DottedSecondMatch(p: string, q: string, offset: nat, lineNo: nat)
    requires AllLetters(p) && PlainWord(q)
    ensures MatchTokens(p + ['.'] + q, Span(|p| + 1, |p| + 1 + |q|), offset, lineNo)
         == [NewToken(q, offset + |p| + 1, offset + |p| + |q|, lineNo)]
  {
    var s := p + ['.'] + q;
    DottedSlices(p, q);
    PlainMatchTokens(s, Span(|p| + 1, |p| + 1 + |q|), offset, lineNo);
  }

  lemma DottedSlices(p: string, q: string)
    requires AllLetters(p) && AllLetters(q)
    ensures (p + ['.'] + q)[|p| + 1..|p| + 1 + |q|] == q
    ensures (p + ['.'] + q)[..|p| + 1 + |q|] == p + ['.'] + q
    ensures AllAscii(p + ['.'] + q)
  {
    var s := p + ['.'] + q;
    assert forall k :: 0 <= k < |s| ==> s[k] == '.' || IsAsciiLetter(s[k]);
  }

  /** The piece `p.q` gives `p` at the offset and `q` one byte after `p`. */
  lemma DottedPieceTokens(p: string, q: string, offset: nat, lineNo: nat)
    requires PlainWord(p) && PlainWord(q)
    ensures SubChunkTokens(p + ['.'] + q, offset, lineNo)
         == [NewToken(p, offset, offset + |p| - 1, lineNo),
             NewToken(q, offset + |p| + 1, offset + |p| + |q|, lineNo)]
  {
    var s := p + ['.'] + q;
    var m1, m2 := Span(0, |p|), Span(|p| + 1, |p| + 1 + |q|);
    DottedMatches(p, q);
    SpansTokensTwo(s, m1, m2, offset, lineNo);
    DottedFirstMatch(p, q, offset, lineNo);
    DottedSecondMatch(p, q, offset, lineNo);
    calc {
      SubChunkTokens(s, offset, lineNo);
      SpansTokens(s, [m1, m2], offset, lineNo);
      MatchTokens(s, m1, offset, lineNo) + MatchTokens(s, m2, offset, lineNo);
    }
  }

  lemma DottedChunkSplit(p: string, q: string, sep: char, r: string)
    requires PlainWord(p) && PlainWord(q) && PlainWord(r) && IsSeparator(sep)
    ensures !Skipped(p + ['.'] + q + [sep] + r)
    ensures SplitSeparators(TrimEdges(p + ['.'] + q + [sep] + r)) == [p + ['.'] + q, r]
  {
    var d := p + ['.'] + q;
    var c := d + [sep] + r;
    assert c[0] == p[0] && c[|c| - 1] == r[|r| - 1];
    assert forall k :: 0 <= k < |c| ==> c[k] == sep || c[k] == '.' || IsAsciiLetter(c[k]);
    LetterChunkKept(c);
    assert forall k :: 0 <= k < |d| ==> d[k] == '.' || IsAsciiLetter(d[k]);
    SplitSeparatorsPair(d, sep, r);
  }

  /**
   * Inside one chunk, starts need not grow in emission order: in `p.q<sep>r`
   * the word `r` is placed at the chunk's offset again, before `q`.
   */
  lemma StartsRestartAfterSeparator(p: string, q: string, sep: char, r: string, offset: nat, lineNo: nat)
    requires PlainWord(p) && PlainWord(q) && PlainWord(r) && IsSeparator(sep)
    ensures ChunkTokens(p + ['.'] + q + [sep] + r, offset, lineNo)
         == [NewToken(p, offset, offset + |p| - 1, lineNo),
             NewToken(q, offset + |p| + 1, offset + |p| + |q|, lineNo),
             NewToken(r, offset, offset + |r| - 1, lineNo)]
  {
    DottedChunkSplit(p, q, sep, r);
    SubChunksTokensTwo(p + ['.'] + q, r, offset, lineNo);
    DottedPieceTokens(p, q, offset, lineNo);
    PlainWordTokens(r, offset, lineNo);
  }

  /** `ab.cd_ef`: `ef` is placed at the chunk's offset, before `cd`. */
  lemma DottedSnakeChunk(offset: nat, lineNo: nat)
    ensures ChunkTokens("ab.cd_ef", offset, lineNo)
         == [NewToken("ab", offset, offset + 1, lineNo),
             NewToken("cd", offset + 3, offset + 4, lineNo),
             NewToken("ef", offset, offset + 1, lineNo)]
  {
    DottedSnakeParts();
    StartsRestartAfterSeparator("ab", "cd", '_', "ef", offset, lineNo);
  }

  lemma DottedSnakeParts()
    ensures PlainWord("ab") && PlainWord("cd") && PlainWord("ef") && IsSeparator('_')
    ensures "ab.cd_ef" == "ab" + ['.'] + "cd" + ['_'] + "ef"
  {
    LowerTailNoTransition("ab");
    LowerTailNoTransition("cd");
    LowerTailNoTransition("ef");
  }
}
