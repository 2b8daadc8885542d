/*
 * Character classes and UTF-8 lengths used by the tokenizer.
 *
 * Text is a sequence of Unicode scalar values (`string`); every byte offset the
 * tokenizer reports is recovered from it through `ByteLen`, the length of the
 * text's UTF-8 encoding.  The character classes that the source takes from
 * Rust's Unicode tables (`is_alphanumeric`, `is_uppercase`, regex `\w`, `\d`)
 * are given their ASCII definitions here; whitespace is Unicode's full
 * White_Space list, as used by `str::split_whitespace`.
 */
module Text {

  predicate IsAsciiLetter(c: char) {
    ('a' <= c <= 'z') || ('A' <= c <= 'Z')
  }

  predicate IsAsciiDigit(c: char) {
    '0' <= c <= '9'
  }

  predicate IsAsciiUpper(c: char) {
    'A' <= c <= 'Z'
  }

  /** `char::is_alphanumeric`, restricted to ASCII. */
  predicate IsAlnum(c: char) {
    IsAsciiLetter(c) || IsAsciiDigit(c)
  }

  /** A regex word character `\w`, restricted to ASCII. */
  predicate IsWordChar(c: char) {
    IsAlnum(c) || c == '_'
  }

  /** `char::is_whitespace`: the Unicode White_Space property. */
  predicate IsWhitespace(c: char) {
    var n := c as int;
    (0x09 <= n <= 0x0D) || n == 0x20 || n == 0x85 || n == 0xA0 || n == 0x1680
    || (0x2000 <= n <= 0x200A) || n == 0x2028 || n == 0x2029 || n == 0x202F
    || n == 0x205F || n == 0x3000
  }

  predicate IsAscii(c: char) {
    c as int < 0x80
  }

  predicate AllAscii(s: string) {
    forall k :: 0 <= k < |s| ==> IsAscii(s[k])
  }

  /** Number of bytes `c` takes in UTF-8. */
  function Utf8Width(c: char): (w: nat)
    ensures 1 <= w <= 4
    ensures w == 1 <==> IsAscii(c)
  {
    if c as int < 0x80 then 1
    else if c as int < 0x800 then 2
    else if c as int < 0x1_0000 then 3
    else 4
  }

  /** `str::len`: the length in bytes of the UTF-8 encoding of `s`. */
  function ByteLen(s: string): (n: nat)
    ensures n >= |s|
    ensures n == |s| ==> AllAscii(s)
  {
    if s == [] then 0 else ByteLen(s[..|s| - 1]) + Utf8Width(s[|s| - 1])
  }

  /** Dropping the last element of a concatenation drops it from the second part. */
  lemma DropLast<T>(a: seq<T>, b: seq<T>)
    requires b != []
    ensures (a + b)[..|a + b| - 1] == a + b[..|b| - 1]
  {
  }

  lemma {:induction false} ByteLenConcat(a: string, b: string)
    ensures ByteLen(a + b) == ByteLen(a) + ByteLen(b)
    decreases |b|
  {
    if b == [] {
      assert a + b == a;
    } else {
      var b' := b[..|b| - 1];
      DropLast(a, b);
      ByteLenConcat(a, b');
    }
  }

  /** Byte offsets are monotone in the character offset they are taken at. */
  lemma ByteLenPrefix(s: string, i: nat, j: nat)
    requires i <= j <= |s|
    ensures ByteLen(s[..j]) == ByteLen(s[..i]) + ByteLen(s[i..j])
    ensures ByteLen(s[..j]) - ByteLen(s[..i]) >= j - i
  {
    assert s[..j] == s[..i] + s[i..j];
    ByteLenConcat(s[..i], s[i..j]);
  }

  lemma {:induction false} AsciiByteLen(s: string)
    requires AllAscii(s)
    ensures ByteLen(s) == |s|
    decreases |s|
  {
    if s != [] {
      AsciiByteLen(s[..|s| - 1]);
    }
  }

  /** The index of the first character at or after `i` that fails `p` (or `|s|`). */
  function SkipWhile(s: string, i: nat, p: char -> bool): (j: nat)
    requires i <= |s|
    ensures i <= j <= |s|
    ensures forall k :: i <= k < j ==> p(s[k])
    ensures j == |s| || !p(s[j])
    decreases |s| - i
  {
    if i == |s| || !p(s[i]) then i else SkipWhile(s, i + 1, p)
  }

  /** The scan from `from` stops at `to` when the characters in between pass and the one at `to` fails. */
  lemma SkipWhileStops(s: string, from: nat, to: nat, p: char -> bool)
    requires from <= to <= |s|
    requires forall k :: from <= k < to ==> p(s[k])
    requires to == |s| || !p(s[to])
    ensures SkipWhile(s, from, p) == to
  {
  }

  /** The smallest `j >= lo` such that every character of `s[j..hi]` satisfies `p`. */
  function SkipBackWhile(s: string, lo: nat, hi: nat, p: char -> bool): (j: nat)
    requires lo <= hi <= |s|
    ensures lo <= j <= hi
    ensures forall k :: j <= k < hi ==> p(s[k])
    ensures j == lo || !p(s[j - 1])
    decreases hi - lo
  {
    if hi == lo || !p(s[hi - 1]) then hi else SkipBackWhile(s, lo, hi - 1, p)
  }

  /** The backward scan from `hi` stops at `to` when the characters from `to` on pass and the one before fails. */
  lemma SkipBackWhileStops(s: string, lo: nat, hi: nat, to: nat, p: char -> bool)
    requires lo <= to <= hi <= |s|
    requires forall k :: to <= k < hi ==> p(s[k])
    requires to == lo || !p(s[to - 1])
    ensures SkipBackWhile(s, lo, hi, p) == to
  {
  }

  /** Concatenation of a sequence of strings. */
  function Concat(parts: seq<string>): string {
    if parts == [] then [] else Concat(parts[..|parts| - 1]) + parts[|parts| - 1]
  }

  lemma {:induction false} ConcatAppend(parts: seq<string>, more: seq<string>)
    ensures Concat(parts + more) == Concat(parts) + Concat(more)
    decreases |more|
  {
    if more == [] {
      assert parts + more == parts;
    } else {
      var m' := more[..|more| - 1];
      DropLast(parts, more);
      ConcatAppend(parts, m');
    }
  }

  lemma ConcatCons(part: string, parts: seq<string>)
    ensures Concat([part] + parts) == part + Concat(parts)
  {
    ConcatAppend([part], parts);
    assert Concat([part]) == Concat([]) + part;
  }

  /** Every character of every part occurs in the concatenation. */
  lemma {:induction false} ConcatMember(parts: seq<string>, k: nat, c: char)
    requires k < |parts| && c in parts[k]
    ensures c in Concat(parts)
    decreases |parts|
  {
    var init := parts[..|parts| - 1];
    if k < |parts| - 1 {
      ConcatMember(init, k, c);
    }
    assert Concat(parts) == Concat(init) + parts[|parts| - 1];
  }
}
