/*
 * The fixed rules of `Patterns::new`, as predicates and scanners instead of
 * compiled regular expressions:
 *  - five ignore rules, each applied with `Regex::is_match`, so a rule fires
 *    when ANY substring of the chunk matches it;
 *  - the split pattern `[ _\-—]`, used with `Regex::split`;
 *  - the word pattern `[a-zA-Z]+[0-9]*[a-zA-Z]*`, used with `Regex::find_iter`.
 * Character classes are the ASCII ones of module Text.
 */
module Patterns {
  import opened Text

  // ---------------------------------------------------------------- ignore rules

  datatype IgnoreRule = Url | FilePath | Number | RegexLiteral | Email

  /** The rules in the order `Patterns::new` lists them. */
  const IgnorePatterns: seq<IgnoreRule> := [Url, FilePath, Number, RegexLiteral, Email]

  /** `s` holds the text `p` starting at index `i`. */
  predicate HasAt(s: string, i: nat, p: string) {
    i + |p| <= |s| && s[i..i + |p|] == p
  }

  /** `https?://\S+` matches exactly `s[i..j]`. */
  predicate UrlAt(s: string, i: nat, j: nat) {
    && j <= |s|
    && (|| (HasAt(s, i, "http://") && i + 7 < j && forall k | i + 7 <= k < j :: !IsWhitespace(s[k]))
        || (HasAt(s, i, "https://") && i + 8 < j && forall k | i + 8 <= k < j :: !IsWhitespace(s[k])))
  }

  /** A shortest match of `https?://\S+` starts at `i`: the scheme and one character that is not whitespace. */
  predicate UrlStartsAt(s: string, i: nat) {
    || (HasAt(s, i, "http://") && i + 7 < |s| && !IsWhitespace(s[i + 7]))
    || (HasAt(s, i, "https://") && i + 8 < |s| && !IsWhitespace(s[i + 8]))
  }

  /** `https?://\S+` occurs somewhere in `s`: some part of `s` is a whole match of it. */
  predicate MatchesUrl(s: string): (r: bool)
    ensures r <==> exists i, j | 0 <= i < j <= |s| :: UrlAt(s, i, j)
  {
    UrlShortest(s);
    exists i | 0 <= i < |s| :: UrlStartsAt(s, i)
  }

  /** A match of the URL rule exists exactly when a shortest one does. */
  lemma UrlShortest(s: string)
    ensures (exists i | 0 <= i < |s| :: UrlStartsAt(s, i)) <==> exists i, j | 0 <= i < j <= |s| :: UrlAt(s, i, j)
  {
    if i :| 0 <= i < |s| && UrlStartsAt(s, i) {
      if HasAt(s, i, "http://") && i + 7 < |s| && !IsWhitespace(s[i + 7]) {
        assert UrlAt(s, i, i + 8);
      } else {
        assert UrlAt(s, i, i + 9);
      }
    }
    if i, j :| 0 <= i < j <= |s| && UrlAt(s, i, j) {
      assert UrlStartsAt(s, i);
    }
  }

  predicate IsPathChar(c: char) {
    IsWordChar(c) || c == '-' || c == '.'
  }

  /**
   * `[\w\-\.]+(/[\w\-\.]+)+` matches exactly `s[i..j]`: path characters and
   * slashes, a path character at both ends, no two slashes side by side, and
   * at least one slash.
   */
  predicate PathAt(s: string, i: nat, j: nat) {
    && i < j <= |s|
    && IsPathChar(s[i]) && IsPathChar(s[j - 1])
    && (forall k | i <= k < j :: IsPathChar(s[k]) || s[k] == '/')
    && (forall k | i <= k < j - 1 :: IsPathChar(s[k]) || IsPathChar(s[k + 1]))
    && exists k | i < k < j :: s[k] == '/'
  }

  /** A shortest match of the file-path regex has its slash at `i`: a path character on either side. */
  predicate PathSlashAt(s: string, i: nat) {
    0 < i < |s| - 1 && s[i] == '/' && IsPathChar(s[i - 1]) && IsPathChar(s[i + 1])
  }

  /** `[\w\-\.]+(/[\w\-\.]+)+` occurs somewhere in `s`: some part of `s` is a whole match of it. */
  predicate MatchesFilePath(s: string): (r: bool)
    ensures r <==> exists i, j | 0 <= i < j <= |s| :: PathAt(s, i, j)
  {
    PathShortest(s);
    exists i | 0 < i < |s| - 1 :: PathSlashAt(s, i)
  }

  /** Every match of the file-path rule holds a slash between two path characters, which is a match itself. */
  lemma PathShortest(s: string)
    ensures (exists i | 0 < i < |s| - 1 :: PathSlashAt(s, i)) <==> exists i, j | 0 <= i < j <= |s| :: PathAt(s, i, j)
  {
    if i :| 0 < i < |s| - 1 && PathSlashAt(s, i) {
      assert PathAt(s, i - 1, i + 2);
    }
    if i, j :| 0 <= i < j <= |s| && PathAt(s, i, j) {
      var k :| i < k < j && s[k] == '/';
      assert IsPathChar(s[k - 1]) && IsPathChar(s[k + 1]);
      assert PathSlashAt(s, k);
    }
  }

  predicate IsWordAt(s: string, i: int) {
    0 <= i < |s| && IsWordChar(s[i])
  }

  /** Regex `\b` at position `i` (between `s[i - 1]` and `s[i]`). */
  predicate WordBoundary(s: string, i: nat) {
    IsWordAt(s, i - 1) != IsWordAt(s, i)
  }

  /** `\b\d+\b` matches exactly `s[i..j]`: digits with a word boundary on both sides. */
  predicate NumberAt(s: string, i: nat, j: nat) {
    && i < j <= |s|
    && WordBoundary(s, i) && WordBoundary(s, j)
    && forall k | i <= k < j :: IsAsciiDigit(s[k])
  }

  /** `s[i..j]` is a whole run of word characters, and holds only digits. */
  predicate DigitWordAt(s: string, i: nat, j: nat) {
    && i < j <= |s|
    && !IsWordAt(s, i - 1) && !IsWordAt(s, j)
    && forall k | i <= k < j :: IsAsciiDigit(s[k])
  }

  /** `\b\d+\b` occurs somewhere in `s`: some run of word characters is all digits. */
  predicate MatchesNumber(s: string): (r: bool)
    ensures r <==> exists i, j | 0 <= i < j <= |s| :: DigitWordAt(s, i, j)
  {
    NumberIsDigitWord(s);
    exists i, j | 0 <= i < j <= |s| :: NumberAt(s, i, j)
  }

  /** Digits are word characters, so the boundaries around them say the run cannot grow. */
  lemma NumberIsDigitWord(s: string)
    ensures forall i, j | 0 <= i < j <= |s| :: NumberAt(s, i, j) <==> DigitWordAt(s, i, j)
  {
  }

  /**
   * `\\[a-zA-Z]+[{[^()]+}]*` matches exactly `s[i..j]`: a backslash, the letters
   * up to `t`, then characters of the tail class.  The tail class nests
   * `[^()]` inside `[{...+}]`, so it is every character but a parenthesis.
   */
  predicate RegexLiteralAt(s: string, i: nat, t: nat, j: nat) {
    && i + 1 < t <= j <= |s|
    && s[i] == '\\'
    && (forall k | i < k < t :: IsAsciiLetter(s[k]))
    && (forall k | t <= k < j :: s[k] != '(' && s[k] != ')')
  }

  /** A shortest match of the backslash rule starts at `i`: a backslash and one ASCII letter. */
  predicate BackslashLetterAt(s: string, i: nat) {
    i + 1 < |s| && s[i] == '\\' && IsAsciiLetter(s[i + 1])
  }

  /**
   * `\\[a-zA-Z]+[{[^()]+}]*` occurs somewhere in `s`.  Its tail is starred, so
   * it matches exactly where a backslash is followed by an ASCII letter.
   */
  predicate MatchesRegexLiteral(s: string): (r: bool)
    ensures r <==> exists i, t, j | 0 <= i < t <= j <= |s| :: RegexLiteralAt(s, i, t, j)
  {
    RegexLiteralShortest(s);
    exists i | 0 <= i < |s| - 1 :: BackslashLetterAt(s, i)
  }

  lemma RegexLiteralShortest(s: string)
    ensures (exists i | 0 <= i < |s| - 1 :: BackslashLetterAt(s, i))
            <==> exists i, t, j | 0 <= i < t <= j <= |s| :: RegexLiteralAt(s, i, t, j)
  {
    if i :| 0 <= i < |s| - 1 && BackslashLetterAt(s, i) {
      assert RegexLiteralAt(s, i, i + 2, i + 2);
    }
    if i, t, j :| 0 <= i < t <= j <= |s| && RegexLiteralAt(s, i, t, j) {
      assert BackslashLetterAt(s, i);
    }
  }

  predicate IsEmailLocalChar(c: char) {
    IsAlnum(c) || c == '.' || c == '_' || c == '%' || c == '+' || c == '-'
  }

  predicate IsEmailDomainChar(c: char) {
    IsAlnum(c) || c == '.' || c == '-'
  }

  /**
   * `\b[A-Za-z0-9._%+-]+@[A-Za-z0-9.-]+\.[A-Za-z]{2,}\b` matches exactly
   * `s[i..e]`: a local part `s[i..a]`, the `@` at `a`, a domain `s[a+1..d]`, the
   * dot at `d` and a top-level domain `s[d+1..e]` of at least two letters.
   */
  predicate EmailAt(s: string, i: nat, a: nat, d: nat, e: nat) {
    && i < a && a + 1 < d && d + 2 < e <= |s|
    && WordBoundary(s, i) && WordBoundary(s, e)
    && (forall k | i <= k < a :: IsEmailLocalChar(s[k]))
    && s[a] == '@'
    && (forall k | a < k < d :: IsEmailDomainChar(s[k]))
    && s[d] == '.'
    && (forall k | d < k < e :: IsAsciiLetter(s[k]))
  }

  /** An `@` after some text, then a dot followed by two ASCII letters. */
  predicate AtThenDotLetters(s: string, a: nat, d: nat) {
    0 < a && a + 1 < d && d + 2 < |s|
    && s[a] == '@' && s[d] == '.' && IsAsciiLetter(s[d + 1]) && IsAsciiLetter(s[d + 2])
  }

  /**
   * The e-mail regex occurs somewhere in `s`; every such `s` has an `@` with
   * text before it and, further on, a dot followed by two ASCII letters.
   */
  predicate MatchesEmail(s: string): (r: bool)
    ensures r ==> exists a, d :: AtThenDotLetters(s, a, d)
  {
    EmailNeedsAtAndDot(s);
    exists i, a, d, e | 0 <= i < a < d < e <= |s| :: EmailAt(s, i, a, d, e)
  }

  lemma EmailNeedsAtAndDot(s: string)
    ensures (exists i, a, d, e | 0 <= i < a < d < e <= |s| :: EmailAt(s, i, a, d, e)) ==> exists a, d :: AtThenDotLetters(s, a, d)
  {
    if i, a, d, e :| 0 <= i < a < d < e <= |s| && EmailAt(s, i, a, d, e) {
      assert AtThenDotLetters(s, a, d);
    }
  }

  predicate RuleMatches(rule: IgnoreRule, s: string) {
    match rule
    case Url => MatchesUrl(s)
    case FilePath => MatchesFilePath(s)
    case Number => MatchesNumber(s)
    case RegexLiteral => MatchesRegexLiteral(s)
    case Email => MatchesEmail(s)
  }

  /** `ignore_patterns.iter().any(|p| p.is_match(chunk))`: one of the five rules matches. */
  predicate IsIgnored(chunk: string): (r: bool)
    ensures r <==> || MatchesUrl(chunk) || MatchesFilePath(chunk) || MatchesNumber(chunk)
                   || MatchesRegexLiteral(chunk) || MatchesEmail(chunk)
  {
    AnyRuleMatches(chunk);
    exists rule | rule in IgnorePatterns :: RuleMatches(rule, chunk)
  }

  /** The list holds each of the five rules, so `any` over it is the disjunction of the five. */
  lemma AnyRuleMatches(chunk: string)
    ensures (exists rule | rule in IgnorePatterns :: RuleMatches(rule, chunk))
            <==> || MatchesUrl(chunk) || MatchesFilePath(chunk) || MatchesNumber(chunk)
                 || MatchesRegexLiteral(chunk) || MatchesEmail(chunk)
  {
    assert IgnorePatterns[0] == Url && IgnorePatterns[1] == FilePath && IgnorePatterns[2] == Number;
    assert IgnorePatterns[3] == RegexLiteral && IgnorePatterns[4] == Email;
    assert RuleMatches(Url, chunk) == MatchesUrl(chunk);
    assert RuleMatches(FilePath, chunk) == MatchesFilePath(chunk);
    assert RuleMatches(Number, chunk) == MatchesNumber(chunk);
    assert RuleMatches(RegexLiteral, chunk) == MatchesRegexLiteral(chunk);
    assert RuleMatches(Email, chunk) == MatchesEmail(chunk);
  }

  /**
   * A chunk with no slash, backslash, at sign or digit matches no ignore rule:
   * each rule needs at least one of them.
   */
  lemma PlainChunkIsNotIgnored(chunk: string)
    requires forall k :: 0 <= k < |chunk| ==>
               chunk[k] != '/' && chunk[k] != '\\' && chunk[k] != '@' && !IsAsciiDigit(chunk[k])
    ensures !IsIgnored(chunk)
  {
    forall i | 0 <= i && i + 7 <= |chunk| ensures !HasAt(chunk, i, "http://") {
      assert chunk[i..i + 7][5] == chunk[i + 5] != '/';
    }
    forall i | 0 <= i && i + 8 <= |chunk| ensures !HasAt(chunk, i, "https://") {
      assert chunk[i..i + 8][6] == chunk[i + 6] != '/';
    }
  }

  // ------------------------------------------------------------- split pattern

  /** The characters of the split pattern `[ _\-—]`. */
  predicate IsSeparator(c: char) {
    c == ' ' || c == '_' || c == '-' || c == '—'
  }

  /**
   * `split_pattern.split(chunk)`: the pieces between separators, empty pieces
   * included, so there is always one more piece than there are separators.
   */
  function SplitSeparators(s: string): (pieces: seq<string>)
    ensures |pieces| == CountSeparators(s) + 1
    decreases |s|
  {
    if s == [] then [[]]
    else
      var rest := SplitSeparators(s[1..]);
      if IsSeparator(s[0]) then [[]] + rest
      else [[s[0]] + rest[0]] + rest[1..]
  }

  /** The number of separator characters in `s`. */
  function CountSeparators(s: string): nat {
    if s == [] then 0 else (if IsSeparator(s[0]) then 1 else 0) + CountSeparators(s[1..])
  }

  /** The text with its separators deleted. */
  function DropSeparators(s: string): string {
    if s == [] then []
    else if IsSeparator(s[0]) then DropSeparators(s[1..])
    else [s[0]] + DropSeparators(s[1..])
  }

  /** No piece holds a separator. */
  lemma {:induction false} SplitSeparatorsPieces(s: string)
    ensures forall k, j :: 0 <= k < |SplitSeparators(s)| && 0 <= j < |SplitSeparators(s)[k]| ==>
              !IsSeparator(SplitSeparators(s)[k][j])
    decreases |s|
  {
    if s != [] {
      var rest := SplitSeparators(s[1..]);
      SplitSeparatorsPieces(s[1..]);
      var pieces := SplitSeparators(s);
      if !IsSeparator(s[0]) {
        forall k, j | 0 <= k < |pieces| && 0 <= j < |pieces[k]|
          ensures !IsSeparator(pieces[k][j])
        {
          if k == 0 && j > 0 {
            assert pieces[k][j] == rest[0][j - 1];
          } else if k > 0 {
            assert pieces[k] == rest[k];
          }
        }
      } else {
        assert forall k :: 0 < k < |pieces| ==> pieces[k] == rest[k - 1];
      }
    }
  }

  /** The pieces, in order, are the text with its separators deleted. */
  lemma {:induction false} SplitSeparatorsConcat(s: string)
    ensures Concat(SplitSeparators(s)) == DropSeparators(s)
    decreases |s|
  {
    if s != [] {
      var rest := SplitSeparators(s[1..]);
      SplitSeparatorsConcat(s[1..]);
      if IsSeparator(s[0]) {
        ConcatCons([], rest);
        assert [] + Concat(rest) == Concat(rest);
      } else {
        ConcatExtendFirst(s[0], rest);
      }
    }
  }

  /** Putting a character in front of the first piece puts it in front of the concatenation. */
  lemma ConcatExtendFirst(c: char, pieces: seq<string>)
    requires |pieces| >= 1
    ensures Concat([[c] + pieces[0]] + pieces[1..]) == [c] + Concat(pieces)
  {
    var head, tail := pieces[0], pieces[1..];
    calc {
      Concat([[c] + head] + tail);
    == { ConcatCons([c] + head, tail); }
      [c] + head + Concat(tail);
    == [c] + (head + Concat(tail));
    == { ConcatCons(head, tail); }
      [c] + Concat([head] + tail);
    == { assert [head] + tail == pieces; }
      [c] + Concat(pieces);
    }
  }

  /** Text without separators comes back as the only piece. */
  lemma {:induction false} SplitSeparatorsNone(s: string)
    requires forall k :: 0 <= k < |s| ==> !IsSeparator(s[k])
    ensures SplitSeparators(s) == [s]
    decreases |s|
  {
    if s != [] {
      SplitSeparatorsNone(s[1..]);
      assert s == [s[0]] + s[1..];
    }
  }

  /** The first separator ends the first piece; splitting goes on after it. */
  lemma {:induction false} SplitSeparatorsFirst(a: string, sep: char, b: string)
    requires forall k :: 0 <= k < |a| ==> !IsSeparator(a[k])
    requires IsSeparator(sep)
    ensures SplitSeparators(a + [sep] + b) == [a] + SplitSeparators(b)
    decreases |a|
  {
    var s := a + [sep] + b;
    if a == [] {
      assert s[1..] == b;
    } else {
      assert s[1..] == a[1..] + [sep] + b;
      SplitSeparatorsFirst(a[1..], sep, b);
      assert a == [a[0]] + a[1..];
    }
  }

  /** Each piece is no longer, in bytes, than the text it was split from. */
  lemma {:induction false} SplitSeparatorsByteLen(s: string)
    ensures forall k :: 0 <= k < |SplitSeparators(s)| ==> ByteLen(SplitSeparators(s)[k]) <= ByteLen(s)
    decreases |s|
  {
    if s != [] {
      var rest := SplitSeparators(s[1..]);
      SplitSeparatorsByteLen(s[1..]);
      assert s == [s[0]] + s[1..];
      ByteLenConcat([s[0]], s[1..]);
      ByteLenConcat([s[0]], rest[0]);
    }
  }

  // --------------------------------------------------------------- word pattern

  /** A match of the word pattern: the characters `s[start..end]`. */
  datatype Span = Span(start: nat, end: nat)

  predicate NotAsciiLetter(c: char) {
    !IsAsciiLetter(c)
  }

  /**
   * The leftmost match of `[a-zA-Z]+[0-9]*[a-zA-Z]*` at or after `from`: it
   * starts at the first ASCII letter, and each part takes as much as it can.
   */
  function NextMatch(s: string, from: nat): (m: Option<Span>)
    requires from <= |s|
    ensures m.Some? ==> from <= m.value.start < m.value.end <= |s|
  {
    var start := SkipWhile(s, from, NotAsciiLetter);
    if start == |s| then None
    else
      var letters := SkipWhile(s, start, IsAsciiLetter);
      var digits := SkipWhile(s, letters, IsAsciiDigit);
      Some(Span(start, SkipWhile(s, digits, IsAsciiLetter)))
  }

  datatype Option<T> = None | Some(value: T)

  /** `word_pattern.find_iter(s)` from index `from`: each search resumes where the last match ended. */
  function MatchesFrom(s: string, from: nat): (ms: seq<Span>)
    requires from <= |s|
    ensures forall k :: 0 <= k < |ms| ==> from <= ms[k].start < ms[k].end <= |s|
    decreases |s| - from
  {
    match NextMatch(s, from)
    case None => []
    case Some(m) => [m] + MatchesFrom(s, m.end)
  }

  /** `word_pattern.find_iter(s)` */
  function WordMatches(s: string): (ms: seq<Span>)
    ensures ValidSpans(s, ms)
  {
    MatchesFrom(s, 0)
  }

  predicate ValidSpans(s: string, ms: seq<Span>) {
    forall k :: 0 <= k < |ms| ==> ms[k].start < ms[k].end <= |s|
  }

  /** The text has the shape `[a-zA-Z]+[0-9]*[a-zA-Z]*`, split at `a` and `b`. */
  predicate WordShape(w: string, a: nat, b: nat) {
    && 0 < a <= b <= |w|
    && (forall k :: 0 <= k < a ==> IsAsciiLetter(w[k]))
    && (forall k :: a <= k < b ==> IsAsciiDigit(w[k]))
    && (forall k :: b <= k < |w| ==> IsAsciiLetter(w[k]))
  }

  /** The run of characters satisfying `p` that reaches index `i` cannot go on past it. */
  predicate RunEnds(s: string, i: nat, p: char -> bool) {
    i == |s| || (i < |s| && !p(s[i]))
  }

  /**
   * `s[m.start..m.end]` is the word the pattern takes when it starts at
   * `m.start`: letters up to `m.start + a`, digits up to `m.start + b`, letters
   * up to `m.end`, each run as long as `s` allows.
   */
  predicate MaximalShape(s: string, m: Span, a: nat, b: nat) {
    && m.start < m.end <= |s|
    && WordShape(s[m.start..m.end], a, b)
    && RunEnds(s, m.start + a, IsAsciiLetter)
    && RunEnds(s, m.start + b, IsAsciiDigit)
    && RunEnds(s, m.end, IsAsciiLetter)
  }

  /** Some split of the span into letters, digits and letters has maximal runs. */
  ghost predicate MaximalWord(s: string, m: Span) {
    exists a, b :: MaximalShape(s, m, a, b)
  }

  /** The word shape of `s[start..end]`, read off `s` itself. */
  lemma WordShapeInText(s: string, start: nat, end: nat, a: nat, b: nat)
    requires start <= end <= |s| && WordShape(s[start..end], a, b)
    ensures forall k :: start <= k < start + a ==> IsAsciiLetter(s[k])
    ensures forall k :: start + a <= k < start + b ==> IsAsciiDigit(s[k])
    ensures forall k :: start + b <= k < end ==> IsAsciiLetter(s[k])
  {
    var w := s[start..end];
    assert forall k :: start <= k < end ==> s[k] == w[k - start];
  }

  /** The runs of a maximal shape are where the three scans of `NextMatch` stop. */
  lemma MaximalShapeIsScan(s: string, m: Span, a: nat, b: nat)
    requires MaximalShape(s, m, a, b)
    ensures m.start < m.end <= |s| && IsAsciiLetter(s[m.start])
    ensures SkipWhile(s, m.start, IsAsciiLetter) == m.start + a
    ensures SkipWhile(s, m.start + a, IsAsciiDigit) == m.start + b
    ensures SkipWhile(s, m.start + b, IsAsciiLetter) == m.end
  {
    WordShapeInText(s, m.start, m.end, a, b);
    SkipWhileStops(s, m.start, m.start + a, IsAsciiLetter);
    SkipWhileStops(s, m.start + a, m.start + b, IsAsciiDigit);
    SkipWhileStops(s, m.start + b, m.end, IsAsciiLetter);
  }

  lemma MaximalWordStartsWithLetter(s: string, m: Span)
    requires MaximalWord(s, m)
    ensures m.start < m.end <= |s| && IsAsciiLetter(s[m.start])
  {
    var a, b :| MaximalShape(s, m, a, b);
    MaximalShapeIsScan(s, m, a, b);
  }

  /** The three scans from a letter at `start` give a maximal shape. */
  lemma ScanIsMaximalShape(s: string, start: nat, letters: nat, digits: nat, end: nat)
    requires start < |s| && IsAsciiLetter(s[start])
    requires letters == SkipWhile(s, start, IsAsciiLetter)
    requires digits == SkipWhile(s, letters, IsAsciiDigit)
    requires end == SkipWhile(s, digits, IsAsciiLetter)
    ensures MaximalShape(s, Span(start, end), letters - start, digits - start)
  {
    var w := s[start..end];
    forall k | 0 <= k < letters - start ensures IsAsciiLetter(w[k]) {
      assert w[k] == s[start + k];
    }
    forall k | letters - start <= k < digits - start ensures IsAsciiDigit(w[k]) {
      assert w[k] == s[start + k];
    }
    forall k | digits - start <= k < |w| ensures IsAsciiLetter(w[k]) {
      assert w[k] == s[start + k];
    }
  }

  /**
   * The leftmost match is a maximal word, and no ASCII letter is skipped
   * before it; without a match, no ASCII letter is left.
   */
  lemma NextMatchSpec(s: string, from: nat)
    requires from <= |s|
    ensures NextMatch(s, from).None? ==> forall i :: from <= i < |s| ==> !IsAsciiLetter(s[i])
    ensures NextMatch(s, from).Some? ==>
      var m := NextMatch(s, from).value;
      && MaximalWord(s, m)
      && (forall i :: from <= i < m.start ==> !IsAsciiLetter(s[i]))
  {
    var start := SkipWhile(s, from, NotAsciiLetter);
    if start < |s| {
      var letters := SkipWhile(s, start, IsAsciiLetter);
      var digits := SkipWhile(s, letters, IsAsciiDigit);
      ScanIsMaximalShape(s, start, letters, digits, SkipWhile(s, digits, IsAsciiLetter));
    }
  }

  /** Conversely, a maximal word with no ASCII letter before it is the leftmost match. */
  lemma MaximalWordIsNext(s: string, from: nat, m: Span)
    requires from <= m.start && MaximalWord(s, m)
    requires forall i :: from <= i < m.start ==> !IsAsciiLetter(s[i])
    ensures NextMatch(s, from) == Some(m)
  {
    var a, b :| MaximalShape(s, m, a, b);
    MaximalShapeIsScan(s, m, a, b);
    SkipWhileStops(s, from, m.start, NotAsciiLetter);
    var start := SkipWhile(s, from, NotAsciiLetter);
    var letters := SkipWhile(s, start, IsAsciiLetter);
    var digits := SkipWhile(s, letters, IsAsciiDigit);
    assert SkipWhile(s, digits, IsAsciiLetter) == m.end;
  }

  /** The match is an ordered sequence of non-overlapping spans. */
  predicate Ordered(ms: seq<Span>) {
    forall k :: 0 < k < |ms| ==> ms[k - 1].end <= ms[k].start
  }

  ghost predicate Covered(ms: seq<Span>, i: nat) {
    exists k :: 0 <= k < |ms| && ms[k].start <= i < ms[k].end
  }

  /** Every match of the scan is a maximal word. */
  lemma {:induction false} MatchesFromShaped(s: string, from: nat)
    requires from <= |s|
    ensures forall k :: 0 <= k < |MatchesFrom(s, from)| ==> MaximalWord(s, MatchesFrom(s, from)[k])
    decreases |s| - from
  {
    var ms := MatchesFrom(s, from);
    NextMatchSpec(s, from);
    if NextMatch(s, from).Some? {
      var m := NextMatch(s, from).value;
      MatchesFromShaped(s, m.end);
      assert ms == [m] + MatchesFrom(s, m.end);
    }
  }

  /** The matches are ordered and do not overlap. */
  lemma {:induction false} MatchesFromOrdered(s: string, from: nat)
    requires from <= |s|
    ensures Ordered(MatchesFrom(s, from))
    decreases |s| - from
  {
    var ms := MatchesFrom(s, from);
    if NextMatch(s, from).Some? {
      var m := NextMatch(s, from).value;
      var rest := MatchesFrom(s, m.end);
      MatchesFromOrdered(s, m.end);
      assert ms == [m] + rest;
      forall k | 0 < k < |ms| ensures ms[k - 1].end <= ms[k].start {
        if k > 1 {
          assert ms[k - 1] == rest[k - 2] && ms[k] == rest[k - 1];
        }
      }
    }
  }

  lemma CoveredCons(m: Span, rest: seq<Span>, i: nat)
    requires m.start <= i < m.end || Covered(rest, i)
    ensures Covered([m] + rest, i)
  {
    var ms := [m] + rest;
    if m.start <= i < m.end {
      assert ms[0] == m;
    } else {
      var k :| 0 <= k < |rest| && rest[k].start <= i < rest[k].end;
      assert ms[k + 1] == rest[k];
    }
  }

  /** No ASCII letter at or after `from` lies outside the matches: the scan loses no letter. */
  lemma {:induction false} MatchesFromCover(s: string, from: nat)
    requires from <= |s|
    ensures forall i :: from <= i < |s| && IsAsciiLetter(s[i]) ==> Covered(MatchesFrom(s, from), i)
    decreases |s| - from
  {
    NextMatchSpec(s, from);
    if NextMatch(s, from).Some? {
      var m := NextMatch(s, from).value;
      var rest := MatchesFrom(s, m.end);
      MatchesFromCover(s, m.end);
      assert MatchesFrom(s, from) == [m] + rest;
      forall i | from <= i < |s| && IsAsciiLetter(s[i])
        ensures Covered([m] + rest, i)
      {
        CoveredCons(m, rest, i);
      }
    }
  }

  /** Each span holds only ASCII letters and digits and begins with a letter. */
  predicate AlnumSpans(s: string, ms: seq<Span>) {
    && ValidSpans(s, ms)
    && (forall k, j :: 0 <= k < |ms| && ms[k].start <= j < ms[k].end ==> IsAlnum(s[j]))
    && (forall k :: 0 <= k < |ms| ==> IsAsciiLetter(s[ms[k].start]))
  }

  lemma AlnumSpansCons(s: string, m: Span, rest: seq<Span>)
    requires m.start < m.end <= |s| && IsAsciiLetter(s[m.start])
    requires forall j :: m.start <= j < m.end ==> IsAlnum(s[j])
    requires AlnumSpans(s, rest)
    ensures AlnumSpans(s, [m] + rest)
  {
    var ms := [m] + rest;
    forall k | 0 < k < |ms| ensures ms[k] == rest[k - 1] {
    }
  }

  lemma {:induction false} MatchesFromAlnum(s: string, from: nat)
    requires from <= |s|
    ensures AlnumSpans(s, MatchesFrom(s, from))
    decreases |s| - from
  {
    var start := SkipWhile(s, from, NotAsciiLetter);
    if start < |s| {
      var m := NextMatch(s, from).value;
      MatchesFromAlnum(s, m.end);
      var letters := SkipWhile(s, start, IsAsciiLetter);
      var digits := SkipWhile(s, letters, IsAsciiDigit);
      assert forall j :: m.start <= j < m.end ==> IsAlnum(s[j]);
      AlnumSpansCons(s, m, MatchesFrom(s, m.end));
    }
  }

  /** Every match of the word pattern in `s` is a span of ASCII letters and digits that starts with a letter. */
  lemma WordMatchesAreAlnum(s: string)
    ensures AlnumSpans(s, WordMatches(s))
  {
    MatchesFromAlnum(s, 0);
  }

  /** In an ordered list, a span ends no later than any later span starts. */
  lemma {:induction false} OrderedApart(ms: seq<Span>, i: nat, j: nat)
    requires Ordered(ms) && forall k :: 0 <= k < |ms| ==> ms[k].start < ms[k].end
    requires i < j < |ms|
    ensures ms[i].end <= ms[j].start
    decreases j - i
  {
    if i + 1 < j {
      OrderedApart(ms, i, j - 1);
    }
  }

  /** The spans after the first are maximal words that start where the first ends or later. */
  lemma WordsAfterFirst(s: string, from: nat, ms: seq<Span>)
    requires |ms| > 0 && Ordered(ms)
    requires forall k :: 0 <= k < |ms| ==> from <= ms[k].start && MaximalWord(s, ms[k])
    ensures forall k :: 0 <= k < |ms[1..]| ==> ms[0].end <= ms[1..][k].start && MaximalWord(s, ms[1..][k])
  {
    forall k | 0 <= k < |ms| ensures ms[k].start < ms[k].end {
      MaximalWordStartsWithLetter(s, ms[k]);
    }
    forall k | 0 <= k < |ms[1..]| ensures ms[0].end <= ms[1..][k].start {
      OrderedApart(ms, 0, k + 1);
    }
  }

  /** A position the first span ends at or before is covered by the others, if at all. */
  lemma CoveredAfterFirst(ms: seq<Span>, i: nat)
    requires |ms| > 0 && Covered(ms, i) && ms[0].end <= i
    ensures Covered(ms[1..], i)
  {
    var k :| 0 <= k < |ms| && ms[k].start <= i < ms[k].end;
    assert ms[1..][k - 1] == ms[k];
  }

  /** Without an ASCII letter at or after `from`, no maximal word starts there. */
  lemma NoLetterNoWords(s: string, from: nat, ms: seq<Span>)
    requires from <= |s| && forall i :: from <= i < |s| ==> !IsAsciiLetter(s[i])
    requires forall k :: 0 <= k < |ms| ==> from <= ms[k].start && MaximalWord(s, ms[k])
    ensures ms == []
  {
    forall k | 0 <= k < |ms| ensures IsAsciiLetter(s[ms[k].start]) {
      MaximalWordStartsWithLetter(s, ms[k]);
    }
    ghost var lead := if ms == [] then |s| else ms[0].start;
  }

  /** A list of maximal words covering the first ASCII letter from `from` begins with the leftmost match. */
  lemma FirstWordIsNext(s: string, from: nat, ms: seq<Span>)
    requires from <= |s| && NextMatch(s, from).Some?
    requires forall k :: 0 <= k < |ms| ==> from <= ms[k].start && MaximalWord(s, ms[k])
    requires Ordered(ms)
    requires forall i :: from <= i < |s| && IsAsciiLetter(s[i]) ==> Covered(ms, i)
    ensures |ms| > 0 && NextMatch(s, from) == Some(ms[0])
  {
    var first := SkipWhile(s, from, NotAsciiLetter);
    forall k | 0 <= k < |ms| ensures ms[k].start < ms[k].end {
      MaximalWordStartsWithLetter(s, ms[k]);
    }
    assert Covered(ms, first);
    var j :| 0 <= j < |ms| && ms[j].start <= first < ms[j].end;
    if j > 0 {
      OrderedApart(ms, 0, j);
    }
    MaximalWordStartsWithLetter(s, ms[0]);
    assert ms[0].start == first;
    MaximalWordIsNext(s, from, ms[0]);
  }

  lemma SeqCons(ms: seq<Span>)
    requires |ms| > 0
    ensures ms == [ms[0]] + ms[1..]
  {
  }

  /**
   * The scan from `from` is the only ordered list of maximal words at or after
   * `from` that covers every ASCII letter there.
   */
  lemma {:induction false} MatchesFromUnique(s: string, from: nat, ms: seq<Span>)
    requires from <= |s|
    requires forall k :: 0 <= k < |ms| ==> from <= ms[k].start && MaximalWord(s, ms[k])
    requires Ordered(ms)
    requires forall i :: from <= i < |s| && IsAsciiLetter(s[i]) ==> Covered(ms, i)
    ensures ms == MatchesFrom(s, from)
    decreases |s| - from
  {
    NextMatchSpec(s, from);
    if NextMatch(s, from).None? {
      NoLetterNoWords(s, from, ms);
    } else {
      FirstWordIsNext(s, from, ms);
      var m, rest := ms[0], ms[1..];
      WordsAfterFirst(s, from, ms);
      forall i | m.end <= i < |s| && IsAsciiLetter(s[i]) ensures Covered(rest, i) {
        CoveredAfterFirst(ms, i);
      }
      MatchesFromUnique(s, m.end, rest);
      SeqCons(ms);
    }
  }

  /**
   * `find_iter` characterised without the scan: its matches are exactly the
   * ordered lists of maximal words that leave no ASCII letter of `s` outside.
   */
  lemma WordMatchesCharacterized(s: string, ms: seq<Span>)
    ensures ms == WordMatches(s) <==>
      && (forall k :: 0 <= k < |ms| ==> MaximalWord(s, ms[k]))
      && Ordered(ms)
      && (forall i :: 0 <= i < |s| && IsAsciiLetter(s[i]) ==> Covered(ms, i))
  {
    MatchesFromShaped(s, 0);
    MatchesFromOrdered(s, 0);
    MatchesFromCover(s, 0);
    if && (forall k :: 0 <= k < |ms| ==> MaximalWord(s, ms[k]))
       && Ordered(ms)
       && (forall i :: 0 <= i < |s| && IsAsciiLetter(s[i]) ==> Covered(ms, i))
    {
      MatchesFromUnique(s, 0, ms);
    }
  }
}
