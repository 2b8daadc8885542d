/*
 * `Tokenizer::split_word_cases`: split a word at case transitions.
 *
 * A new segment begins at index `i > 0` exactly when `word[i]` is upper-case
 * and the segment pending since the last split, `word[start..i]`, is not
 * entirely upper-case.  A run of capitals therefore never splits before a
 * capital that follows it: "TITLECase" stays one segment.  Upper case is ASCII
 * upper case; the words the tokenizer passes in are ASCII.
 */
module CaseSplit {
  import opened Text

  predicate AllUpper(s: string) {
    forall k :: 0 <= k < |s| ==> IsAsciiUpper(s[k])
  }

  /** Whether the loop of `split_word_cases` closes the pending segment `word[start..i]` at `i`. */
  predicate SplitsAt(word: string, start: nat, i: nat)
    requires start <= i < |word|
  {
    i > 0 && IsAsciiUpper(word[i]) && !AllUpper(word[start..i])
  }

  /** The segments still to come when the loop is at index `i` with a segment pending since `start`. */
  function Scan(word: string, start: nat, i: nat): (segments: seq<string>)
    requires start <= i <= |word|
    ensures |segments| >= 1
    decreases |word| - i
  {
    if i == |word| then [word[start..]]
    else if SplitsAt(word, start, i) then [word[start..i]] + Scan(word, i, i + 1)
    else Scan(word, start, i + 1)
  }

  /**
   * The segments `split_word_cases(word)` returns: at least one, since the
   * segment pending when the loop ends is always pushed.
   */
  function CaseSegments(word: string): (segments: seq<string>)
    ensures |segments| >= 1
  {
    Scan(word, 0, 0)
  }

  /** `split_word_cases`, as the loop the source runs. */
  method SplitWordCases(word: string) returns (result: seq<string>)
    ensures result == CaseSegments(word)
  {
    result := [];
    var start := 0;
    for i := 0 to |word|
      invariant start <= i
      invariant result + Scan(word, start, i) == CaseSegments(word)
    {
      if i > 0 && IsAsciiUpper(word[i]) && !AllUpper(word[start..i]) {
        result := result + [word[start..i]];
        start := i;
      }
    }
    result := result + [word[start..]];
  }

  // ------------------------------------------------------------ round trip

  lemma {:induction false} ScanConcat(word: string, start: nat, i: nat)
    requires start <= i <= |word|
    ensures Concat(Scan(word, start, i)) == word[start..]
    decreases |word| - i
  {
    if i == |word| {
      assert Concat([word[start..]]) == Concat([]) + word[start..];
    } else if SplitsAt(word, start, i) {
      ScanConcat(word, i, i + 1);
      ConcatCons(word[start..i], Scan(word, i, i + 1));
      assert word[start..] == word[start..i] + word[i..];
    } else {
      ScanConcat(word, start, i + 1);
    }
  }

  /** Concatenating the segments in order gives back the word: no character is lost or added. */
  lemma CaseSegmentsConcat(word: string)
    ensures Concat(CaseSegments(word)) == word
  {
    ScanConcat(word, 0, 0);
  }

  // ---------------------------------------------------------- segment shape

  lemma {:induction false} ScanNonEmpty(word: string, start: nat, i: nat)
    requires start <= i <= |word| && start < |word|
    ensures forall k :: 0 <= k < |Scan(word, start, i)| ==> Scan(word, start, i)[k] != []
    decreases |word| - i
  {
    if i < |word| {
      if SplitsAt(word, start, i) {
        ScanNonEmpty(word, i, i + 1);
      } else {
        ScanNonEmpty(word, start, i + 1);
      }
    }
  }

  /** A non-empty word splits into at least one segment, none of them empty. */
  lemma CaseSegmentsNonEmpty(word: string)
    requires word != []
    ensures forall k :: 0 <= k < |CaseSegments(word)| ==> CaseSegments(word)[k] != []
  {
    ScanNonEmpty(word, 0, 0);
  }

  /** No index after the first closes a segment pending since the start of the word. */
  predicate NoTransition(word: string) {
    forall i :: 0 < i < |word| ==> !(IsAsciiUpper(word[i]) && !AllUpper(word[..i]))
  }

  lemma {:induction false} ScanWithoutSplit(word: string, start: nat, i: nat)
    requires start <= i <= |word|
    requires forall j :: i <= j < |word| ==> !SplitsAt(word, start, j)
    ensures Scan(word, start, i) == [word[start..]]
    decreases |word| - i
  {
    if i < |word| {
      ScanWithoutSplit(word, start, i + 1);
    }
  }

  lemma {:induction false} ScanWithSplit(word: string, start: nat, i: nat, j: nat)
    requires start <= i <= j < |word| && SplitsAt(word, start, j)
    ensures |Scan(word, start, i)| >= 2
    decreases |word| - i
  {
    if !SplitsAt(word, start, i) {
      ScanWithSplit(word, start, i + 1, j);
    }
  }

  /** The word comes back whole, as `[word]`, exactly when it has no qualifying transition. */
  lemma CaseSegmentsSingle(word: string)
    ensures CaseSegments(word) == [word] <==> NoTransition(word)
  {
    if NoTransition(word) {
      forall j | 0 <= j < |word| ensures !SplitsAt(word, 0, j) {
        assert word[0..j] == word[..j];
      }
      ScanWithoutSplit(word, 0, 0);
    } else {
      var j :| 0 < j < |word| && IsAsciiUpper(word[j]) && !AllUpper(word[..j]);
      assert word[0..j] == word[..j];
      ScanWithSplit(word, 0, 0, j);
    }
  }

  // ----------------------------------------------- independent characterisation

  /** No index past the first of `part` closes a segment pending since the start of `part`. */
  predicate NoInnerSplit(part: string) {
    forall j :: 0 < j < |part| ==> !(IsAsciiUpper(part[j]) && !AllUpper(part[..j]))
  }

  /**
   * `parts` splits `word` by the case rule: the parts concatenate to the word;
   * each part after the first is non-empty and begins with a capital; each part
   * before the last is not all capitals; and no part holds a point where the
   * rule would have split it.
   */
  ghost predicate IsCaseSplit(word: string, parts: seq<string>) {
    && |parts| >= 1
    && Concat(parts) == word
    && (forall k :: 0 < k < |parts| ==> parts[k] != [] && IsAsciiUpper(parts[k][0]))
    && (forall k :: 0 <= k < |parts| - 1 ==> !AllUpper(parts[k]))
    && (forall k :: 0 <= k < |parts| ==> NoInnerSplit(parts[k]))
  }

  lemma ConcatHead(parts: seq<string>)
    requires |parts| >= 1
    ensures Concat(parts) == parts[0] + Concat(parts[1..])
  {
    assert parts == [parts[0]] + parts[1..];
    ConcatCons(parts[0], parts[1..]);
  }

  lemma CaseSplitCons(head: string, rest: string, parts: seq<string>)
    requires IsCaseSplit(rest, parts)
    requires parts[0] != [] && IsAsciiUpper(parts[0][0])
    requires !AllUpper(head) && NoInnerSplit(head)
    ensures IsCaseSplit(head + rest, [head] + parts)
  {
    var all := [head] + parts;
    ConcatCons(head, parts);
    forall k | 0 < k < |all| ensures all[k] != [] && IsAsciiUpper(all[k][0]) {
      assert all[k] == parts[k - 1];
    }
    forall k | 0 <= k < |all| - 1 ensures !AllUpper(all[k]) {
      if k > 0 {
        assert all[k] == parts[k - 1];
      }
    }
    forall k | 0 <= k < |all| ensures NoInnerSplit(all[k]) {
      if k > 0 {
        assert all[k] == parts[k - 1];
      }
    }
  }

  /** A pending segment the loop does not close at `i` still has no transition after taking `word[i]`. */
  lemma NoInnerSplitExtend(word: string, start: nat, i: nat)
    requires start <= i < |word|
    requires NoInnerSplit(word[start..i]) && !SplitsAt(word, start, i)
    ensures NoInnerSplit(word[start..i + 1])
  {
    var pending := word[start..i + 1];
    forall j | 0 < j < |pending| ensures !(IsAsciiUpper(pending[j]) && !AllUpper(pending[..j])) {
      assert pending[..j] == word[start..start + j];
      if j < i - start {
        assert pending[..j] == word[start..i][..j];
      }
    }
  }

  lemma {:induction false} ScanIsCaseSplit(word: string, start: nat, i: nat)
    requires start <= i <= |word|
    requires NoInnerSplit(word[start..i])
    ensures IsCaseSplit(word[start..], Scan(word, start, i))
    decreases |word| - i
  {
    var rest := word[start..];
    if i == |word| {
      assert Concat([rest]) == Concat([]) + rest;
      assert word[start..i] == rest;
    } else if SplitsAt(word, start, i) {
      var parts := Scan(word, i, i + 1);
      assert NoInnerSplit(word[i..i + 1]);
      ScanIsCaseSplit(word, i, i + 1);
      ScanNonEmpty(word, i, i + 1);
      ConcatHead(parts);
      assert parts[0][0] == word[i..][0] == word[i];
      CaseSplitCons(word[start..i], word[i..], parts);
      assert rest == word[start..i] + word[i..];
    } else {
      NoInnerSplitExtend(word, start, i);
      ScanIsCaseSplit(word, start, i + 1);
    }
  }

  /** The segments of `split_word_cases` split the word by the case rule ... */
  lemma CaseSegmentsIsCaseSplit(word: string)
    ensures IsCaseSplit(word, CaseSegments(word))
  {
    ScanIsCaseSplit(word, 0, 0);
    assert word[0..] == word;
  }

  lemma CaseSplitTail(word: string, parts: seq<string>)
    requires IsCaseSplit(word, parts) && |parts| >= 2
    ensures |parts[0]| < |word| && word[..|parts[0]|] == parts[0]
    ensures IsCaseSplit(word[|parts[0]|..], parts[1..])
    ensures IsAsciiUpper(word[|parts[0]|]) && !AllUpper(word[..|parts[0]|])
  {
    ConcatHead(parts);
    var tail := parts[1..];
    ConcatHead(tail);
    assert tail[0] == parts[1];
    assert word == parts[0] + Concat(tail);
    assert word[|parts[0]|] == Concat(tail)[0] == parts[1][0];
    forall k | 0 < k < |tail| ensures tail[k] != [] && IsAsciiUpper(tail[k][0]) {
      assert tail[k] == parts[k + 1];
    }
    forall k | 0 <= k < |tail| - 1 ensures !AllUpper(tail[k]) {
      assert tail[k] == parts[k + 1];
    }
    forall k | 0 <= k < |tail| ensures NoInnerSplit(tail[k]) {
      assert tail[k] == parts[k + 1];
    }
  }

  lemma CaseSplitWhole(word: string, start: nat, i: nat, parts: seq<string>)
    requires start < i <= |word|
    requires IsCaseSplit(word[start..], parts) && |parts| == 1
    ensures parts == Scan(word, start, i)
  {
    var rest := word[start..];
    assert parts[0] == rest by {
      assert Concat(parts) == Concat([]) + parts[0];
    }
    assert NoInnerSplit(rest);
    forall j | i <= j < |word| ensures !SplitsAt(word, start, j) {
      assert rest[..j - start] == word[start..j];
    }
    ScanWithoutSplit(word, start, i);
  }

  lemma {:induction false} CaseSplitIsScan(word: string, start: nat, i: nat, parts: seq<string>)
    requires start < i <= |word|
    requires IsCaseSplit(word[start..], parts)
    requires |parts| >= 2 ==> i <= start + |parts[0]|
    ensures parts == Scan(word, start, i)
    decreases |word| - i
  {
    var rest := word[start..];
    if |parts| == 1 {
      CaseSplitWhole(word, start, i, parts);
    } else {
      CaseSplitTail(rest, parts);
      var m := start + |parts[0]|;
      assert rest[..|parts[0]|] == word[start..m];
      if i < m {
        assert NoInnerSplit(parts[0]);
        assert parts[0][i - start] == word[i] && parts[0][..i - start] == word[start..i];
        assert !SplitsAt(word, start, i);
        CaseSplitIsScan(word, start, i + 1, parts);
      } else {
        assert rest[|parts[0]|..] == word[m..];
        assert SplitsAt(word, start, m);
        CaseSplitIsScan(word, m, m + 1, parts[1..]);
        assert parts == [parts[0]] + parts[1..];
      }
    }
  }

  lemma {:induction false} ConcatEmpty(parts: seq<string>)
    requires Concat(parts) == []
    ensures forall k :: 0 <= k < |parts| ==> parts[k] == []
    decreases |parts|
  {
    if parts != [] {
      ConcatEmpty(parts[..|parts| - 1]);
      assert forall k :: 0 <= k < |parts| - 1 ==> parts[k] == parts[..|parts| - 1][k];
    }
  }

  /** ... and they are the only such split: the case rule determines the segments. */
  lemma CaseSplitUnique(word: string, parts: seq<string>)
    requires IsCaseSplit(word, parts)
    ensures parts == CaseSegments(word)
  {
    if word == [] {
      ConcatEmpty(parts);
    } else {
      assert word[0..] == word;
      if |parts| >= 2 {
        assert !AllUpper(parts[0]);
      }
      CaseSplitIsScan(word, 0, 1, parts);
    }
  }
}

/** The examples of the documentation of `split_word_cases`, as written in its code. */
module CaseSplitExamples {
  import opened Text
  import opened CaseSplit

  /** "camelCaseExample" splits into its three words. */
  lemma CamelCaseExample()
    ensures CaseSegments("camelCaseExample") == ["camel", "Case", "Example"]
  {
    var parts := ["camel", "Case", "Example"];
    assert Concat(parts) == "camelCaseExample" by {
      assert Concat(parts[..2]) == "camelCase" by {
        assert Concat(parts[..1]) == "camel" by {
          assert parts[..1][..0] == [];
        }
        assert parts[..2][..1] == parts[..1];
      }
      assert parts[..3] == parts;
    }
    assert !IsAsciiUpper("camel"[0]) && !IsAsciiUpper("Case"[1]);
    LowerTailNoInnerSplit(parts[0]);
    LowerTailNoInnerSplit(parts[1]);
    LowerTailNoInnerSplit(parts[2]);
    assert IsCaseSplit("camelCaseExample", parts);
    CaseSplitUnique("camelCaseExample", parts);
  }

  /** A part with no capital after its first letter holds no split point. */
  lemma LowerTailNoInnerSplit(part: string)
    requires forall i :: 0 < i < |part| ==> !IsAsciiUpper(part[i])
    ensures NoInnerSplit(part)
  {
  }

  /** A run of capitals is never split from the capitalised word after it: "TITLECase" stays whole. */
  lemma TitleCaseStaysWhole()
    ensures CaseSegments("TITLECase") == ["TITLECase"]
  {
    var w := "TITLECase";
    forall i | 0 < i < |w| ensures !(IsAsciiUpper(w[i]) && !AllUpper(w[..i])) {
      if i <= 5 {
        assert forall k :: 0 <= k < i ==> w[..i][k] == w[k];
      }
    }
    CaseSegmentsSingle(w);
  }
}
