# Tokenizer of y3, modelled in Dafny

y3 is a spell checker. Its tokenizer (`src/tokenizer.rs`) reads a file line by
line and turns each line into `Token`s: a word plus its byte `start`, its
inclusive byte `end` and its 1-based `line_no`. For each line it runs these steps:

1. split the line on whitespace into chunks;
2. trim each chunk's edges of characters that are neither alphanumeric nor an
   apostrophe;
3. drop the chunk if it is empty or if any of five ignore rules matches anywhere
   in it (URL, file path, bare number, backslash escape, e-mail address);
4. split the chunk on `_`, `-`, `—` and space;
5. scan each non-empty piece with the word pattern `[a-zA-Z]+[0-9]*[a-zA-Z]*`;
6. discard one-byte matches;
7. split each remaining match at its case transitions (`split_word_cases`);
8. push one token per segment, at positions computed from a running `offset`.

The project models all of this and proves what the code promises about it.

| file | module | what it holds |
|---|---|---|
| `text.dfy` | `Text` | character classes, UTF-8 byte length (`str::len`), scanning helpers, concatenation |
| `chunking.dfy` | `Chunking` | `split_whitespace` and the edge trim |
| `patterns.dfy` | `Patterns` | the five ignore rules, the split pattern and the word-pattern scanner of `Patterns::new` |
| `case_split.dfy` | `CaseSplit`, `CaseSplitExamples` | `split_word_cases` as a function and as the loop the source runs |
| `pipeline.dfy` | `Tokens`, `Pipeline` | `Position`, `Token`, `Token::new`, and the tokens of a match, piece, chunk, line and file as functions |
| `pipeline_properties.dfy` | `PipelineProperties` | well-formedness, positions and ordering of what the pipeline emits |
| `pipeline_examples.dfy` | `PipelineExamples` | the rules and splits on their documented examples, and chunks of given shapes |
| `tokenizer.dfy` | `Tokenization` | the `Tokenizer` class: `new`, `tokens`, `clear_tokens`, `tokenize` |

Each operation has a partner that the lemmas relate it to:

- **`split_word_cases`** has two forms.
  - `SplitWordCases` is the loop the source runs. It is proved to return `CaseSegments(word)`.
  - That function is in turn proved equal to the one split that satisfies an independent definition of the case rule (`IsCaseSplit`).
  - The proofs cover both directions: the function's result satisfies the rule, and any split that satisfies the rule is that result.
- **Positions.** Every position the pipeline emits is proved to lie inside the bytes of the chunk or piece it came from, with `start < end`.
- **The `Tokenizer` class.** Each loop of `tokenize` is a method. Each method is proved to append exactly what the matching pipeline function describes.
- **Deterministic output.** After `ClearTokens`, `Tokenize(lines)` leaves exactly `LinesTokens(lines)`. Tokenizing the same lines again after a clear therefore gives the same tokens.

### Behaviour as written

The model follows the code where the comments or the documentation say otherwise:

- **Offset update.** `offset` grows by the length of the *trimmed* chunk plus one (`src/tokenizer.rs:399`), although the comment at line 397 speaks of the original chunk.
  - Chunks that are empty after trimming, or that an ignore rule matches, leave `offset` unchanged (`continue` at lines 348 and 358).
  - Leading whitespace and runs of several spaces are never counted.
- **Positions inside a chunk** are the match's byte bounds *within its separator-delimited piece*, plus `offset` (lines 382-383).
  - Starts therefore need not grow in emission order inside one chunk: `ab.cd_ef` gives `ab` at 0, `cd` at 3 and `ef` at 0 again (`DottedSnakeChunk`, and `StartsRestartAfterSeparator` for every such chunk).
  - Across chunks the order does hold (`NextChunkComesAfter`).
- **Upper-case runs.** `split_word_cases("TITLECase")` returns `["TITLECase"]`, not `["TITLE", "Case"]`. At `C` the pending segment `TITLE` is all upper case, so the condition at line 434 does not split there (`TitleCaseStaysWhole`).
- **Ignore rules are unanchored** (`is_match`, line 356): `foo-123` is dropped by `\b\d+\b` (`DashedNumberExample`).
- **Ignore rules see the trimmed chunk** (lines 343-356). A leading `\` and a trailing `}` are edge noise, so they are gone before the rules run.
  - The chunk `\d{2}` reaches the rules as `d{2`. The backslash rule does not match it; it is dropped only because `\b\d+\b` matches the `2` (`RegexLiteralChunkTrimmed`).
  - A chunk whose only backslash is its first character, such as the LaTeX command `\section`, passes every rule and gives the token `section` (`BackslashCommandKept`).
- **The backslash rule's tail** `[{[^()]+}]*` is one character class in which `[^()]` is nested, so it is every character except a parenthesis. Since it is starred, the rule matches wherever a backslash is followed by an ASCII letter (`MatchesRegexLiteral`).
- **The module documentation's example** `"sh🤬t" -> ["sh🤬t"]` (line 21) is not what the code does. The word pattern is ASCII-only, so the code yields `sh` and a one-letter `t` that is discarded. The model follows the code and states no lemma for that example.

## Model

| member | source | states |
|---|---|---|
| Tokens.NewToken | src/tokenizer.rs:167-176 | the token's word, start, end and line number are exactly the arguments it was built from |
| Text.ByteLen | src/tokenizer.rs:374 | a text's UTF-8 length is at least its number of characters, and equal to it only for ASCII text |
| Text.ByteLenConcat | src/tokenizer.rs:382-383 | the byte length of a concatenation is the sum of the byte lengths |
| Text.ByteLenPrefix | src/tokenizer.rs:382-383 | the byte offset of a later character is the earlier one's plus the bytes in between, which are at least as many as the characters |
| Text.AsciiByteLen | src/tokenizer.rs:374 | ASCII text is as many bytes long as it has characters |
| Chunking.SplitWhitespace | src/tokenizer.rs:337 | every chunk is non-empty and holds no whitespace character |
| Chunking.SplitWhitespaceKeepsText | src/tokenizer.rs:337 | the chunks, concatenated in order, are the line with its whitespace deleted |
| Chunking.SplitWhitespaceDropLeading | src/tokenizer.rs:337 | a leading whitespace character makes no chunk |
| Chunking.SplitWhitespaceFirst | src/tokenizer.rs:337 | the first chunk runs up to the first whitespace character, and the rest of the line is split the same way |
| Chunking.SplitWhitespaceSingle | src/tokenizer.rs:337 | a non-empty line without whitespace is one chunk |
| Chunking.TrimEdges | src/tokenizer.rs:343-345 | the trimmed chunk is empty exactly when every character of the chunk is neither alphanumeric nor `'`; otherwise it starts and ends with a kept character |
| Chunking.TrimEdgesSpec | src/tokenizer.rs:343-345 | trimming keeps a contiguous slice of the chunk and removes only characters that are neither alphanumeric nor `'`, on either side |
| Chunking.TrimEdgesIdempotent | src/tokenizer.rs:343-345 | trimming a trimmed chunk changes nothing |
| Patterns.MatchesUrl | src/tokenizer.rs:255 | holds exactly when some part of the text is a whole match of `https?://\S+`: the scheme, then one or more characters that are not whitespace |
| Patterns.MatchesFilePath | src/tokenizer.rs:256 | holds exactly when some part of the text is a whole match of `[\w\-\.]+(/[\w\-\.]+)+`: path characters and slashes, a path character at both ends, no two slashes together, at least one slash |
| Patterns.MatchesNumber | src/tokenizer.rs:257 | `\b\d+\b` matches exactly when some whole run of word characters is made of digits only |
| Patterns.MatchesRegexLiteral | src/tokenizer.rs:258 | holds exactly when some part of the text is a whole match of `\\[a-zA-Z]+[{[^()]+}]*`: a backslash, ASCII letters, then characters other than parentheses |
| Patterns.MatchesEmail | src/tokenizer.rs:259 | any text the e-mail rule matches holds an `@` with text before it and, further on, a dot followed by two ASCII letters |
| Patterns.IsIgnored | src/tokenizer.rs:352-356 | a chunk is ignored exactly when one of the five rules matches it |
| Patterns.PlainChunkIsNotIgnored | src/tokenizer.rs:254-259 | a chunk with no `/`, `\`, `@` or digit matches none of the five ignore rules |
| Patterns.SplitSeparators | src/tokenizer.rs:362 | splitting yields one more piece than there are separators, empty pieces included |
| Patterns.SplitSeparatorsPieces | src/tokenizer.rs:262 | no piece holds a separator |
| Patterns.SplitSeparatorsConcat | src/tokenizer.rs:262 | the pieces, concatenated in order, are the chunk with its separators deleted |
| Patterns.SplitSeparatorsNone | src/tokenizer.rs:262 | text without separators is its own only piece |
| Patterns.SplitSeparatorsFirst | src/tokenizer.rs:262 | the first separator ends the first piece, and the rest is split the same way |
| Patterns.SplitSeparatorsByteLen | src/tokenizer.rs:362 | no piece is longer in bytes than the chunk it came from |
| Patterns.NextMatch | src/tokenizer.rs:261 | a match found from a position is a non-empty span at or after it, inside the text |
| Patterns.MatchesFrom | src/tokenizer.rs:370 | every match found from a position is a non-empty span at or after it, inside the text |
| Patterns.WordMatches | src/tokenizer.rs:370 | every match is a non-empty span inside the piece |
| Patterns.NextMatchSpec | src/tokenizer.rs:261 | the leftmost match is a maximal word: letters, digits, letters, each run as long as the text allows; no ASCII letter is skipped before it; with no match, no ASCII letter remains |
| Patterns.MaximalWordIsNext | src/tokenizer.rs:261 | conversely, a maximal word with no ASCII letter before it is the leftmost match |
| Patterns.MatchesFromShaped | src/tokenizer.rs:261 | every match of the scan is a maximal word |
| Patterns.MatchesFromOrdered | src/tokenizer.rs:370 | the matches come in order and do not overlap |
| Patterns.MatchesFromCover | src/tokenizer.rs:370 | every ASCII letter of the piece lies inside some match |
| Patterns.MatchesFromUnique | src/tokenizer.rs:370 | any ordered list of maximal words at or after a position that covers every ASCII letter there is the scan's result |
| Patterns.WordMatchesCharacterized | src/tokenizer.rs:370 | a list of spans is what `find_iter` returns if and only if it is an ordered list of maximal words covering every ASCII letter of the piece |
| Patterns.WordMatchesAreAlnum | src/tokenizer.rs:261 | every match is made of ASCII letters and digits and begins with a letter |
| CaseSplit.CaseSegments | src/tokenizer.rs:429-444 | there is always at least one segment, since the pending segment is pushed after the loop |
| CaseSplit.SplitWordCases | src/tokenizer.rs:429-444 | the loop over `char_indices` returns `CaseSegments(word)` |
| CaseSplit.CaseSegmentsConcat | src/tokenizer.rs:430-443 | the segments, concatenated in order, reproduce the word exactly |
| CaseSplit.CaseSegmentsNonEmpty | src/tokenizer.rs:433-441 | a non-empty word gives no empty segment |
| CaseSplit.CaseSegmentsSingle | src/tokenizer.rs:426-427 | the word comes back as the single segment `[word]` if and only if no index qualifies as a transition |
| CaseSplit.CaseSegmentsIsCaseSplit | src/tokenizer.rs:433-438 | the segments satisfy the case rule: each later segment starts with a capital, each segment but the last is not all upper case, and no segment contains a transition |
| CaseSplit.CaseSplitUnique | src/tokenizer.rs:433-438 | any split of the word that satisfies the case rule is the one `split_word_cases` returns |
| CaseSplitExamples.CamelCaseExample | src/tokenizer.rs:421 | `camelCaseExample` gives `camel`, `Case`, `Example` |
| CaseSplitExamples.TitleCaseStaysWhole | src/tokenizer.rs:434 | `TITLECase` is returned whole |
| Pipeline.MatchTokens | src/tokenizer.rs:374-379 | a match gives no token exactly when it is one byte long |
| Pipeline.SpansTokens | src/tokenizer.rs:370-393 | every token of a piece's matches carries the line number |
| Pipeline.SubChunkTokens | src/tokenizer.rs:364-394 | an empty piece gives no token, and every token carries the line number |
| Pipeline.SubChunksTokens | src/tokenizer.rs:362-395 | every token of a chunk's pieces carries the line number |
| Pipeline.ChunkTokens | src/tokenizer.rs:343-395 | a chunk that is empty after trimming or ignored gives no token, and every token carries the line number |
| Pipeline.ChunksTokens | src/tokenizer.rs:339-400 | every token of a line's chunks carries the line number |
| Pipeline.LineTokens | src/tokenizer.rs:332-400 | every token of a line carries that line's number |
| Pipeline.LinesTokens | src/tokenizer.rs:332-401 | every token's line number lies between 1 and the number of lines |
| PipelineProperties.OffsetAfterZero | src/tokenizer.rs:339-399 | the offset of a line is still 0 after some chunks exactly when every one of them was skipped |
| PipelineProperties.SegmentsAreWords | src/tokenizer.rs:379 | every case segment of a letter-led alphanumeric word is itself one |
| PipelineProperties.MatchTokensSpec | src/tokenizer.rs:370-393 | a one-letter match gives no token and any longer match gives some; the token words concatenate back to the match; every token has start = offset + the match's byte start and end = offset + its byte end − 1, so it spans the match's length |
| PipelineProperties.SpansTokensWindow | src/tokenizer.rs:370-393 | the tokens of a piece's matches are well formed and lie within the piece's bytes after `offset` |
| PipelineProperties.SubChunkTokensWindow | src/tokenizer.rs:364-394 | the tokens of one piece, empty or not, lie within its bytes after `offset` |
| PipelineProperties.SubChunksTokensWindow | src/tokenizer.rs:362-395 | the tokens of all pieces of a chunk lie within the longest piece's bytes after `offset` |
| PipelineProperties.ChunkTokensWindow | src/tokenizer.rs:340-399 | a skipped chunk emits nothing and `Advance` leaves the offset unchanged; for a kept one `Advance` is its trimmed byte length plus one, so it is never 0; its tokens lie within the trimmed chunk's bytes after `offset` |
| PipelineProperties.ChunksTokensWindow | src/tokenizer.rs:339-400 | every token of the chunks seen so far is well formed and ends before the running offset |
| PipelineProperties.NextChunkComesAfter | src/tokenizer.rs:339-400 | the next chunk's tokens are appended, and every token already emitted on the line ends before any of them starts |
| PipelineProperties.OffsetAfterSkip | src/tokenizer.rs:346-359 | a skipped chunk does not change the offset of the chunks after it |
| PipelineProperties.SkippedChunkInvisible | src/tokenizer.rs:346-359 | removing a skipped chunk from a line does not change its tokens |
| PipelineProperties.LineTokensWindow | src/tokenizer.rs:334-400 | every token of a line is well formed, carries that line's number and ends before the line's final offset |
| PipelineProperties.LinesTokensSpec | src/tokenizer.rs:332-401 | every token of a file is well formed with line number between 1 and the number of lines, and line numbers never decrease |
| PipelineExamples.LettersMatchWhole | src/tokenizer.rs:261 | a run of letters is a single match |
| PipelineExamples.PlainMatchTokens | src/tokenizer.rs:370-393 | a match of two or more ASCII characters without a case transition gives exactly one token, the match, at offset + its bounds |
| PipelineExamples.PlainWordChunk | src/tokenizer.rs:339-399 | a chunk that is a plain word gives one token spanning it and advances the offset by its length plus one |
| PipelineExamples.UrlExample | src/tokenizer.rs:255 | `https://example.com` matches the URL rule |
| PipelineExamples.FilePathExample | src/tokenizer.rs:256 | `src/main.rs` matches the file-path rule |
| PipelineExamples.NumberExample | src/tokenizer.rs:257 | `404` matches the number rule |
| PipelineExamples.DashedNumberExample | src/tokenizer.rs:257 | `foo-123` matches the number rule too, since the rule need not match the whole chunk |
| PipelineExamples.RegexLiteralExample | src/tokenizer.rs:258 | the text `\d{2}` matches the backslash-escape rule (as text; the chunk `\d{2}` reaches the rules trimmed) |
| PipelineExamples.EmailExample | src/tokenizer.rs:259 | `me@test.com` matches the e-mail rule |
| PipelineExamples.KeptEdgesTrimToThemselves | src/tokenizer.rs:343-345 | a chunk whose first and last characters are kept is its own trimmed form |
| PipelineExamples.WholeChunkIgnored | src/tokenizer.rs:343-358 | a chunk that is its own trimmed form is skipped as soon as one rule matches it |
| PipelineExamples.IgnoreRuleExamples | src/tokenizer.rs:343-358 | the chunks `https://example.com`, `src/main.rs`, `404`, `foo-123` and `me@test.com` are skipped |
| PipelineExamples.RegexLiteralChunkTrimmed | src/tokenizer.rs:343-358 | the chunk `\d{2}` reaches the rules as `d{2`, which the backslash rule does not match; it is skipped only because the number rule matches the `2` |
| PipelineExamples.SameTrimSameTokens | src/tokenizer.rs:343-399 | chunks that trim to the same text are skipped alike, give the same tokens and advance the offset alike |
| PipelineExamples.LeadingNoiseDropped | src/tokenizer.rs:343-399 | a plain word behind one leading noise character is kept, gives the word as its one token at the offset, and advances the offset by the word's length plus one |
| PipelineExamples.BackslashCommandKept | src/tokenizer.rs:258 | the text `\section` matches the backslash rule, yet the chunk `\section` is not skipped and gives the token `section` |
| PipelineExamples.LetterChunkKept | src/tokenizer.rs:343-358 | a chunk of letters, dots and separators with letters at both ends is kept as it is |
| PipelineExamples.SeparatorExamples | src/tokenizer.rs:240-243 | `snake_case`, `Get-Item` and `run—but` split into their two words |
| PipelineExamples.SeparatedPlainWordsSplit | src/tokenizer.rs:343-362 | a chunk `p<sep>q` of two plain words is kept and split into `p` and `q` |
| PipelineExamples.SplitSeparatorsPair | src/tokenizer.rs:362 | two pieces without separators, joined by one separator, split back into the two |
| PipelineExamples.SeparatedPlainWords | src/tokenizer.rs:362-392 | in a chunk `p<sep>q` of two plain words, both tokens start at the chunk's offset |
| PipelineExamples.SnakeCaseChunk | src/tokenizer.rs:241 | `snake_case` gives `snake` and `case`, both starting at the chunk's offset |
| PipelineExamples.DottedMatches | src/tokenizer.rs:370 | `p.q` holds exactly the two matches `p` and `q` |
| PipelineExamples.DottedPieceTokens | src/tokenizer.rs:370-393 | the piece `p.q` gives `p` at the offset and `q` one byte after `p` ends |
| PipelineExamples.StartsRestartAfterSeparator | src/tokenizer.rs:382-383 | in a chunk `p.q<sep>r` the token `r` starts at the chunk's offset, before `q` |
| PipelineExamples.DottedSnakeChunk | src/tokenizer.rs:382-383 | `ab.cd_ef` gives `ab` at 0, `cd` at 3 and `ef` at 0, counted from the chunk's offset |
| Tokenization.Tokenizer.constructor | src/tokenizer.rs:304-309 | a new tokenizer holds no tokens |
| Tokenization.Tokenizer.ClearTokens | src/tokenizer.rs:321-323 | clearing leaves no tokens |
| Tokenization.Tokenizer.Tokenize | src/tokenizer.rs:328-404 | the tokens held before stay unchanged and in order, followed by the tokens of every line in order, line `i` numbered `i + 1` |
| Tokenization.Tokenizer.TokenizeLine | src/tokenizer.rs:334-400 | with `offset` starting at 0, the loop over a line's chunks appends that line's tokens |
| Tokenization.Tokenizer.TokenizeChunk | src/tokenizer.rs:340-399 | a chunk appends its tokens and returns how far it moves `offset`: 0 if skipped, else its trimmed byte length plus one |
| Tokenization.Tokenizer.TokenizeSubChunk | src/tokenizer.rs:364-394 | an empty piece appends nothing; otherwise the tokens of each match are appended in order |
| Tokenization.Tokenizer.PushMatch | src/tokenizer.rs:370-393 | a one-byte match appends nothing; otherwise one token is appended per case segment, all with the match's bounds |

## Left out

- File opening, `BufReader::lines` and the `io::Result` errors of `tokenize` (`src/tokenizer.rs:329-333`, 403): `Tokenize` takes the file's lines as a sequence of strings.
- Unicode character classes. `is_alphanumeric`, `is_uppercase`, and regex `\w`, `\d` and `\b` are given their ASCII definitions.
  - Whitespace is Unicode's full White_Space list.
  - Every word-pattern match is ASCII, so the case split is exact for every word it receives.
  - Edge trimming and the ignore rules treat non-ASCII letters and digits as symbols. This changes positions when such a character is at a chunk's edge: for `über` the code keeps the `ü`, places `ber` at offset + 2 and advances the offset by 6, whereas the model trims the `ü`, places `ber` at the offset and advances by 4.
- The regex engine. The five ignore rules, the word pattern and the split pattern are hand-written predicates and scanners with the same matches. Each rule is stated as "some part of the chunk is a whole match", and for four of them that is proved equal to a shortest-match test.
- Patterns.MatchesEmail: its contract states only a necessary condition (an `@`, then a dot and two letters), not an if-and-only-if with a simpler test, because the e-mail regex has no shortest form as simple as the other rules'. Its body is the full regex.
- `usize` overflow of positions and offsets: integers are unbounded.
- `#[derive(Debug)]` formatting, and the note that `clear_tokens` keeps the vector's capacity: these are not behaviour.
- The `patterns` field: the compiled regexes never change, so they are constants of the `Patterns` module rather than a field of `Tokenizer`.
- `Position::start`, `end`, `line_no` and `Token::word`, `position` are field reads of the datatypes; `Tokenizer::tokens` is the `Tokens` function, which returns the field.
- Whole lines worked through the pipeline are stated only through the general lemmas of `PipelineProperties`, not as literal examples.
- `y3/src/reader.rs`, `y3/src/main.rs` and `src/main.rs` are not part of this model: they traverse directories and handle the command line.
