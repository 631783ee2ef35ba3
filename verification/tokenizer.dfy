/**
 * Inflector::toArray, the tokenizer every case style is built on.
 *
 * Dumb mode splits before every ASCII capital and at runs of `-`, `_`, `.`
 * or white space, drops empty pieces and lower-cases the rest.  Intelligent
 * mode first rewrites the string twice: pass 1 lower-cases an all-caps run
 * that stands between the start or a separator and a separator or the end;
 * pass 2 turns every remaining capital run into ' ' + its lower case, and
 * splits the run's last letter off into the next word unless the run is a
 * single letter or ends the string.
 */
module Tokenizer {
  import opened Chars

  /** A character of the separator alternatives `[\-]+|[_]+|[.]+|[\s]+` (byte mode, so ASCII `\s`). */
  predicate IsSeparator(c: char) { c == '-' || c == '_' || c == '.' || IsAsciiSpace(c) }

  /** a and b fall in the same one of the four separator classes, so one `[...]+` run covers both. */
  predicate SameSeparator(a: char, b: char) {
    || (a == '-' && b == '-')
    || (a == '_' && b == '_')
    || (a == '.' && b == '.')
    || (IsAsciiSpace(a) && IsAsciiSpace(b))
  }

  /** Length of the `[A-Z]+` run s starts with (0 when it does not start with a capital). */
  function UpperRun(s: string): (n: nat)
    ensures n <= |s|
    ensures forall k :: 0 <= k < n ==> IsUpper(s[k])
    ensures n == |s| || !IsUpper(s[n])
  {
    if s != [] && IsUpper(s[0]) then 1 + UpperRun(s[1..]) else 0
  }

  /** Length of the run of separators of c's class that s starts with. */
  function SeparatorRun(s: string, c: char): (n: nat)
    ensures n <= |s|
    ensures forall k :: 0 <= k < n ==> SameSeparator(c, s[k])
    ensures n == |s| || !SameSeparator(c, s[n])
  {
    if s != [] && SameSeparator(c, s[0]) then 1 + SeparatorRun(s[1..], c) else 0
  }

  // ---------------------------------------------------------------------------
  // The split (dumb mode)
  // ---------------------------------------------------------------------------

  /** A piece as toArray returns it: non-empty, no separator, no capital. */
  predicate IsToken(t: string) {
    t != [] && forall i :: 0 <= i < |t| ==> !IsSeparator(t[i]) && !IsUpper(t[i])
  }

  /** Emits the piece read so far; PREG_SPLIT_NO_EMPTY drops an empty one. */
  function Flush(word: string): seq<string> { if word == [] then [] else [word] }

  /**
   * preg_split on `(?=[A-Z])|[\-]+|[_]+|[.]+|[\s]+` with PREG_SPLIT_NO_EMPTY, then
   * strtolower on every piece, as one left-to-right scan; word is the lower-cased
   * piece read so far.  A separator ends the piece; a capital ends it and starts
   * the next one.
   */
  function SplitFrom(s: string, word: string): seq<string>
  {
    if s == [] then Flush(word)
    else if IsSeparator(s[0]) then Flush(word) + SplitFrom(s[1..], "")
    else if IsUpper(s[0]) then Flush(word) + SplitFrom(s[1..], [ToLower(s[0])])
    else SplitFrom(s[1..], word + [s[0]])
  }

  function SplitWords(s: string): seq<string> { SplitFrom(s, "") }

  /** s with every separator character deleted. */
  function WithoutSeparators(s: string): (r: string)
  {
    if s == [] then ""
    else if IsSeparator(s[0]) then WithoutSeparators(s[1..])
    else [s[0]] + WithoutSeparators(s[1..])
  }

  /** The text toArray keeps of s: its non-separator characters, lower-cased. */
  function Letters(s: string): string { LowerStr(WithoutSeparators(s)) }

  lemma WithoutSeparatorsConcat(a: string, b: string)
    ensures WithoutSeparators(a + b) == WithoutSeparators(a) + WithoutSeparators(b)
  {
    if a == [] {
      assert a + b == b;
    } else {
      assert (a + b)[1..] == a[1..] + b;
      WithoutSeparatorsConcat(a[1..], b);
    }
  }

  lemma LettersConcat(a: string, b: string)
    ensures Letters(a + b) == Letters(a) + Letters(b)
  {
    WithoutSeparatorsConcat(a, b);
    LowerStrConcat(WithoutSeparators(a), WithoutSeparators(b));
  }

  /** Every piece of the split is a token. */
  lemma {:induction false} SplitFromTokens(s: string, word: string)
    requires word == [] || IsToken(word)
    ensures forall t :: t in SplitFrom(s, word) ==> IsToken(t)
  {
    if s == [] {
    } else if IsSeparator(s[0]) {
      SplitFromTokens(s[1..], "");
    } else if IsUpper(s[0]) {
      SplitFromTokens(s[1..], [ToLower(s[0])]);
    } else {
      var w := word + [s[0]];
      assert IsToken(w) by {
        forall i | 0 <= i < |w| ensures !IsSeparator(w[i]) && !IsUpper(w[i]) {
          if i < |word| { assert w[i] == word[i]; }
        }
      }
      SplitFromTokens(s[1..], w);
    }
  }

  /** Letters read one character at a time. */
  lemma LettersCons(s: string)
    requires s != []
    ensures Letters(s) == (if IsSeparator(s[0]) then "" else [ToLower(s[0])]) + Letters(s[1..])
  {
    assert LowerStr([s[0]] + WithoutSeparators(s[1..])) == [ToLower(s[0])] + LowerStr(WithoutSeparators(s[1..]));
  }

  /** The pieces of the split spell the kept letters in order. */
  lemma {:induction false} SplitFromSpells(s: string, word: string)
    ensures Concat(SplitFrom(s, word)) == word + Letters(s)
  {
    if s == [] {
    } else {
      LettersCons(s);
      if IsSeparator(s[0]) {
        SplitFromSpells(s[1..], "");
        ConcatAppend(Flush(word), SplitFrom(s[1..], ""));
      } else if IsUpper(s[0]) {
        SplitFromSpells(s[1..], [ToLower(s[0])]);
        ConcatAppend(Flush(word), SplitFrom(s[1..], [ToLower(s[0])]));
      } else {
        SplitFromSpells(s[1..], word + [s[0]]);
      }
    }
  }

  /** A stretch without separators or capitals just extends the piece being read. */
  lemma {:induction false} SplitThroughWord(t: string, rest: string, word: string)
    requires forall i :: 0 <= i < |t| ==> !IsSeparator(t[i]) && !IsUpper(t[i])
    ensures SplitFrom(t + rest, word) == SplitFrom(rest, word + t)
  {
    if t == [] {
      assert t + rest == rest && word + t == word;
    } else {
      assert (t + rest)[1..] == t[1..] + rest;
      SplitThroughWord(t[1..], rest, word + [t[0]]);
      assert word + [t[0]] + t[1..] == word + t;
    }
  }

  /** The split cuts in front of a separator or a capital: what comes before it is split on its own. */
  lemma {:induction false} SplitFromCut(x: string, rest: string, word: string)
    requires rest == [] || IsSeparator(rest[0]) || IsUpper(rest[0])
    ensures SplitFrom(x + rest, word) == SplitFrom(x, word) + SplitFrom(rest, "")
  {
    if x == [] {
      assert x + rest == rest;
      if rest == [] {
        assert Flush(word) + [] == Flush(word);
      }
    } else {
      assert (x + rest)[1..] == x[1..] + rest;
      if IsSeparator(x[0]) {
        SplitFromCut(x[1..], rest, "");
      } else if IsUpper(x[0]) {
        SplitFromCut(x[1..], rest, [ToLower(x[0])]);
      } else {
        SplitFromCut(x[1..], rest, word + [x[0]]);
      }
    }
  }

  /** Tokens joined by one separator character split back into the same tokens. */
  lemma {:induction false} SplitJoined(ts: seq<string>, sep: char)
    requires forall i :: 0 <= i < |ts| ==> IsToken(ts[i])
    requires IsSeparator(sep)
    ensures SplitWords(Join(ts, [sep])) == ts
  {
    if |ts| == 1 {
      var t := ts[0];
      assert IsToken(t);
      assert Join(ts, [sep]) == t;
      assert t + "" == t && "" + t == t;
      SplitThroughWord(t, "", "");
      assert SplitFrom(t, "") == SplitFrom("", t) == [t];
    } else if |ts| > 1 {
      var t := ts[0];
      assert IsToken(t);
      var rest := Join(ts[1..], [sep]);
      assert Join(ts, [sep]) == t + [sep] + rest;
      assert t + [sep] + rest == t + ([sep] + rest);
      SplitThroughWord(t, [sep] + rest, "");
      assert "" + t == t;
      SplitJoined(ts[1..], sep);
      assert ([sep] + rest)[1..] == rest;
      assert SplitFrom([sep] + rest, t) == [t] + SplitFrom(rest, "");
      assert ts == [t] + ts[1..];
    }
  }

  // ---------------------------------------------------------------------------
  // Pass 1: all-caps runs between separators (Inflector.php:235-239)
  // ---------------------------------------------------------------------------

  /**
   * Where `(^|SEP)([A-Z]+)(SEP|$)` matches at the search position: group 2 is
   * [open, close) and the match ends at end, all relative to that position.
   */
  datatype RunMatch = NoMatch | Match(open: nat, close: nat, end: nat)

  /** Group 1 ended at q and s[q] is a capital: group 2 takes the whole run, group 3 must be a separator run or the end. */
  function Closing(s: string, q: nat): (m: RunMatch)
    requires q < |s| && IsUpper(s[q])
    ensures m.Match? ==> m.open == q < m.close <= m.end <= |s|
  {
    var r := q + UpperRun(s[q..]);
    if r == |s| then Match(q, r, r)
    else if IsSeparator(s[r]) then Match(q, r, r + SeparatorRun(s[r..], s[r]))
    else NoMatch
  }

  /** Group 1 of pass 1's pattern takes s[..q]: nothing where `^` holds, or one whole separator run. */
  predicate OpensRun(s: string, atStart: bool, q: nat) {
    (atStart && q == 0) || (0 < q <= |s| && IsSeparator(s[0]) && q == SeparatorRun(s, s[0]))
  }

  /** Group 2 takes s[q..r]: a whole run of capitals. */
  predicate WholeCapitalRun(s: string, q: nat, r: nat) {
    && q < r <= |s|
    && (forall k :: q <= k < r ==> IsUpper(s[k]))
    && (r == |s| || !IsUpper(s[r]))
  }

  /** Group 3 takes s[r..e]: one whole separator run, or nothing at the end. */
  predicate ClosesRun(s: string, r: nat, e: nat) {
    (r == |s| && e == r) || (r < |s| && IsSeparator(s[r]) && e == r + SeparatorRun(s[r..], s[r]))
  }

  /** `(^|SEP)([A-Z]+)(SEP|$)` matches s[..e] with its three groups s[..q], s[q..r] and s[r..e]. */
  predicate IsRunMatch(s: string, atStart: bool, q: nat, r: nat, e: nat) {
    OpensRun(s, atStart, q) && WholeCapitalRun(s, q, r) && ClosesRun(s, r, e)
  }

  /** The match of pass 1's pattern that starts where s starts, if any; atStart says that `^` can match there. */
  function MatchAt(s: string, atStart: bool): (m: RunMatch)
    ensures m.Match? ==> m.open < m.close <= m.end <= |s|
  {
    if s == [] then NoMatch
    else if atStart && IsUpper(s[0]) then Closing(s, 0)
    else if IsSeparator(s[0]) then
      var q := SeparatorRun(s, s[0]);
      if q < |s| && IsUpper(s[q]) then Closing(s, q) else NoMatch
    else NoMatch
  }

  /**
   * MatchAt finds the pattern exactly where it matches: a match it returns
   * has the three groups of the pattern, and it returns NoMatch only when
   * the pattern cannot match where s starts.
   */
  lemma MatchAtMeaning(s: string, atStart: bool)
    ensures var m := MatchAt(s, atStart);
      && (m.Match? ==> IsRunMatch(s, atStart, m.open, m.close, m.end))
      && (m.NoMatch? ==> forall q, r, e :: !IsRunMatch(s, atStart, q, r, e))
  {
    var m := MatchAt(s, atStart);
    if m.Match? {
      ClosingFound(s, m.open);
      assert OpensRun(s, atStart, m.open);
    } else {
      forall q, r, e | IsRunMatch(s, atStart, q, r, e) ensures false {
        RunMatchIsMatchAt(s, atStart, q, r, e);
      }
    }
  }

  /** The match Closing returns has a whole capital run as group 2 and a separator run or the end as group 3. */
  lemma ClosingFound(s: string, q: nat)
    requires q < |s| && IsUpper(s[q])
    ensures var m := Closing(s, q);
      m.Match? ==> WholeCapitalRun(s, q, m.close) && ClosesRun(s, m.close, m.end)
  {
    var t := s[q..];
    var n := UpperRun(t);
    assert forall k :: q <= k < q + n ==> s[k] == t[k - q];
    assert q + n < |s| ==> s[q + n] == t[n];
  }

  /** The length of a whole capital run is what UpperRun counts. */
  lemma UpperRunIs(t: string, n: nat)
    requires n <= |t| && (forall k :: 0 <= k < n ==> IsUpper(t[k]))
    requires n == |t| || !IsUpper(t[n])
    ensures UpperRun(t) == n
  {
  }

  /** Closing finds the whole capital run at q and the separator run or end after it. */
  lemma ClosingIs(s: string, q: nat, r: nat, e: nat)
    requires WholeCapitalRun(s, q, r) && ClosesRun(s, r, e)
    ensures Closing(s, q) == Match(q, r, e)
  {
    var t := s[q..];
    assert forall k :: 0 <= k < r - q ==> t[k] == s[q + k];
    assert r < |s| ==> t[r - q] == s[r];
    UpperRunIs(t, r - q);
  }

  /** Where the pattern matches with groups [..q], [q..r] and [r..e], MatchAt finds exactly that match. */
  lemma RunMatchIsMatchAt(s: string, atStart: bool, q: nat, r: nat, e: nat)
    requires IsRunMatch(s, atStart, q, r, e)
    ensures MatchAt(s, atStart) == Match(q, r, e)
  {
    ClosingIs(s, q, r, e);
    assert IsUpper(s[q]);
    if 0 < q {
      assert !IsUpper(s[0]);
    }
  }

  /** b equals a except that some characters are lower-cased. */
  predicate LowersOnly(a: string, b: string) {
    |b| == |a| && forall i :: 0 <= i < |a| ==> b[i] == a[i] || b[i] == ToLower(a[i])
  }

  /**
   * preg_replace_callback of pass 1 over the rest s of the subject: each match
   * has group 2 lower-cased and the scan resumes after the match, so a trailing
   * separator consumed by group 3 cannot open the next match.
   */
  function FoldRunsFrom(s: string, atStart: bool): string
    decreases |s|
  {
    if s == [] then []
    else match MatchAt(s, atStart)
      case Match(q, r, e) => s[..q] + LowerStr(s[q..r]) + s[r..e] + FoldRunsFrom(s[e..], false)
      case NoMatch => [s[0]] + FoldRunsFrom(s[1..], false)
  }

  /** Pass 1 only lower-cases characters in place: it keeps the length and every other character. */
  lemma {:induction false} FoldLowersOnly(s: string, atStart: bool)
    ensures LowersOnly(s, FoldRunsFrom(s, atStart))
    decreases |s|
  {
    if s != [] {
      var m := MatchAt(s, atStart);
      if m.Match? {
        FoldLowersOnly(s[m.end..], false);
        FoldMatchLowersOnly(s, atStart, m.open, m.close, m.end);
      } else {
        FoldLowersOnly(s[1..], false);
        FoldNoMatchLowersOnly(s, atStart);
      }
    }
  }

  /** One step of pass 1 at a match, given that the rest only lower-cases. */
  lemma FoldMatchLowersOnly(s: string, atStart: bool, q: nat, r: nat, e: nat)
    requires s != [] && MatchAt(s, atStart) == Match(q, r, e)
    requires LowersOnly(s[e..], FoldRunsFrom(s[e..], false))
    ensures LowersOnly(s, FoldRunsFrom(s, atStart))
  {
    var head := s[..q] + LowerStr(s[q..r]) + s[r..e];
    FoldStepAtMatch(s, atStart, q, r, e, s[..q], s[q..r], s[r..e]);
    FoldedMatchLowersOnly(s, q, r, e);
    LowersOnlySplit(s, e, head, FoldRunsFrom(s[e..], false));
  }

  /** One step of pass 1 where nothing matches, given that the rest only lower-cases. */
  lemma FoldNoMatchLowersOnly(s: string, atStart: bool)
    requires s != [] && MatchAt(s, atStart) == NoMatch
    requires LowersOnly(s[1..], FoldRunsFrom(s[1..], false))
    ensures LowersOnly(s, FoldRunsFrom(s, atStart))
  {
    FoldStepWithoutMatch(s, atStart);
    assert s[..1] == [s[0]];
    LowersOnlySplit(s, 1, [s[0]], FoldRunsFrom(s[1..], false));
  }

  lemma LowersOnlySplit(s: string, e: nat, head: string, tail: string)
    requires e <= |s| && LowersOnly(s[..e], head) && LowersOnly(s[e..], tail)
    ensures LowersOnly(s, head + tail)
  {
    LowersOnlyConcat(s[..e], head, s[e..], tail);
    assert s[..e] + s[e..] == s;
  }

  /** The text of one pass-1 match, with group 2 lower-cased. */
  lemma FoldedMatchLowersOnly(s: string, q: nat, r: nat, e: nat)
    requires q <= r <= e <= |s|
    ensures LowersOnly(s[..e], s[..q] + LowerStr(s[q..r]) + s[r..e])
  {
    var t := s[..q] + LowerStr(s[q..r]) + s[r..e];
    forall i | 0 <= i < e ensures t[i] == s[i] || t[i] == ToLower(s[i]) {
      if i < q {
        assert t[i] == s[i];
      } else if i < r {
        assert t[i] == LowerStr(s[q..r])[i - q];
      } else {
        assert t[i] == s[i];
      }
    }
  }

  lemma LowersOnlyConcat(a1: string, b1: string, a2: string, b2: string)
    requires LowersOnly(a1, b1) && LowersOnly(a2, b2)
    ensures LowersOnly(a1 + a2, b1 + b2)
  {
    forall i | 0 <= i < |a1 + a2|
      ensures (b1 + b2)[i] == (a1 + a2)[i] || (b1 + b2)[i] == ToLower((a1 + a2)[i])
    {
      if i < |a1| { assert (b1 + b2)[i] == b1[i]; } else { assert (b1 + b2)[i] == b2[i - |a1|]; }
    }
  }

  function FoldIsolatedRuns(s: string): string { FoldRunsFrom(s, true) }

  // ---------------------------------------------------------------------------
  // Pass 2: capital runs become words (Inflector.php:247-268)
  // ---------------------------------------------------------------------------

  /** What pass 2's callback returns for a capital run; atEnd says that the run ends the subject. */
  function RunReplacement(run: string, atEnd: bool): string
    requires run != []
  {
    if |run| > 1 && !atEnd then " " + LowerStr(run[..|run| - 1]) + " " + [ToLower(run[|run| - 1])]
    else " " + LowerStr(run)
  }

  /** Pass 2 as a function of the rest of the subject (a run ends the subject exactly when it ends s). */
  function SplitAcronyms(s: string): string
    decreases |s|
  {
    if s == [] then []
    else if IsUpper(s[0]) then
      var n := UpperRun(s);
      RunReplacement(s[..n], n == |s|) + SplitAcronyms(s[n..])
    else [s[0]] + SplitAcronyms(s[1..])
  }

  /**
   * Pass 2 as the source runs it: matches of `([A-Z]+)|(?P<DOT>[\s\S])` from left
   * to right, with offset counting how far the matches have reached, so that
   * `offset != length` tells whether a run ends the subject.
   */
  method ScanAcronyms(s: string) returns (r: string)
    ensures r == SplitAcronyms(s)
  {
    var offset := 0;
    var length := |s|;
    r := "";
    assert s[0..] == s;
    while offset < length
      invariant 0 <= offset <= length
      invariant r + SplitAcronyms(s[offset..]) == SplitAcronyms(s)
    {
      if IsUpper(s[offset]) {
        var start := offset;
        offset := RunEnd(s, start);
        var piece := ReplaceRun(s[start..offset], offset == length);
        SplitAcronymsAtRun(s, start, offset);
        AppendAssoc(r, piece, SplitAcronyms(s[offset..]));
        r := r + piece;
      } else {
        SplitAcronymsAtOther(s, offset);
        AppendAssoc(r, [s[offset]], SplitAcronyms(s[offset + 1..]));
        r := r + [s[offset]];
        offset := offset + 1;
      }
    }
  }

  /** The `[A-Z]+` alternative: where the capital run that starts at start ends. */
  method RunEnd(s: string, start: nat) returns (end: nat)
    requires start < |s| && IsUpper(s[start])
    ensures start < end <= |s|
    ensures forall k :: start <= k < end ==> IsUpper(s[k])
    ensures end == |s| || !IsUpper(s[end])
  {
    end := start + 1;
    while end < |s| && IsUpper(s[end])
      invariant start < end <= |s|
      invariant forall k :: start <= k < end ==> IsUpper(s[k])
    {
      end := end + 1;
    }
  }

  /**
   * Pass 2's callback on a capital run; atEnd is `$offset === $stringLength`.
   * The piece starts with a space, holds no capital, spells the run in lower
   * case, and has a second space before its last letter exactly when the run
   * is longer than one letter and does not end the subject.
   */
  method ReplaceRun(a: string, atEnd: bool) returns (piece: string)
    requires a != [] && forall i :: 0 <= i < |a| ==> IsUpper(a[i])
    ensures piece == RunReplacement(a, atEnd)
    ensures piece[0] == ' ' && NoUpper(piece) && Letters(piece) == LowerStr(a)
    ensures |piece| == |a| + (if |a| > 1 && !atEnd then 2 else 1)
    ensures forall i :: 0 < i < |piece| ==> (piece[i] == ' ' <==> |a| > 1 && !atEnd && i == |piece| - 2)
  {
    if |a| > 1 && !atEnd {
      piece := " " + LowerStr(a[..|a| - 1]) + " " + LowerStr(a[|a| - 1..]);
      assert LowerStr(a[|a| - 1..]) == [ToLower(a[|a| - 1])];
    } else {
      piece := " " + LowerStr(a);
    }
    RunReplacementShape(a, atEnd);
  }

  /** The callback's piece: a leading space, the run in lower case, and a second space before the split-off letter. */
  lemma RunReplacementShape(run: string, atEnd: bool)
    requires run != [] && forall i :: 0 <= i < |run| ==> IsUpper(run[i])
    ensures var r := RunReplacement(run, atEnd);
      && r[0] == ' ' && NoUpper(r) && Letters(r) == LowerStr(run)
      && |r| == |run| + (if |run| > 1 && !atEnd then 2 else 1)
      && forall i :: 0 < i < |r| ==> (r[i] == ' ' <==> |run| > 1 && !atEnd && i == |r| - 2)
  {
    RunReplacementNoUpper(run, atEnd);
    RunReplacementLetters(run, atEnd);
    var r := RunReplacement(run, atEnd);
    if |run| > 1 && !atEnd {
      var n := |run|;
      forall i | 0 < i < |r| ensures r[i] == ' ' <==> i == |r| - 2 {
        if i < n {
          assert r[i] == ToLower(run[i - 1]);
        } else if i == n + 1 {
          assert r[i] == ToLower(run[n - 1]);
        }
      }
    } else {
      forall i | 0 < i < |r| ensures r[i] != ' ' {
        assert r[i] == ToLower(run[i - 1]);
      }
    }
  }

  /** A maximal capital run s[start..end] is replaced as one piece. */
  lemma SplitAcronymsAtRun(s: string, start: nat, end: nat)
    requires start < end <= |s|
    requires forall k :: start <= k < end ==> IsUpper(s[k])
    requires end == |s| || !IsUpper(s[end])
    ensures SplitAcronyms(s[start..])
         == RunReplacement(s[start..end], end == |s|) + SplitAcronyms(s[end..])
  {
    var t := s[start..];
    var m := UpperRun(t);
    assert m == end - start;
    assert t[..m] == s[start..end] && t[m..] == s[end..];
  }

  /** Any other character is kept as it is. */
  lemma SplitAcronymsAtOther(s: string, i: nat)
    requires i < |s| && !IsUpper(s[i])
    ensures SplitAcronyms(s[i..]) == [s[i]] + SplitAcronyms(s[i + 1..])
  {
    assert s[i..][1..] == s[i + 1..];
  }

  // ---------------------------------------------------------------------------
  // toArray
  // ---------------------------------------------------------------------------

  /** Both passes lower-case or insert spaces only, so the letters kept are unchanged. */
  lemma {:induction false} LowersOnlyKeepsLetters(a: string, b: string)
    requires LowersOnly(a, b)
    ensures Letters(b) == Letters(a)
  {
    if a != [] {
      assert LowersOnly(a[1..], b[1..]);
      LowersOnlyKeepsLetters(a[1..], b[1..]);
      LettersCons(a);
      LettersCons(b);
    }
  }

  /** Lower-cased letters and spaces: what pass 2 emits for a run. */
  lemma LettersOfLowerWord(t: string)
    requires forall i :: 0 <= i < |t| ==> IsUpper(t[i])
    ensures Letters(" " + LowerStr(t)) == LowerStr(t)
  {
    LettersCons(" " + LowerStr(t));
    assert (" " + LowerStr(t))[1..] == LowerStr(t);
    NoSeparatorsKept(LowerStr(t));
    LowerStrOfLower(LowerStr(t));
  }

  /** The replacement of a capital run keeps its letters. */
  lemma RunReplacementLetters(run: string, atEnd: bool)
    requires run != [] && forall i :: 0 <= i < |run| ==> IsUpper(run[i])
    ensures Letters(RunReplacement(run, atEnd)) == LowerStr(run)
  {
    if |run| > 1 && !atEnd {
      var init, last := run[..|run| - 1], run[|run| - 1..];
      var a, b := " " + LowerStr(init), " " + LowerStr(last);
      assert LowerStr(last) == [ToLower(run[|run| - 1])];
      assert RunReplacement(run, atEnd) == a + b;
      LettersOfLowerWord(init);
      LettersOfLowerWord(last);
      LettersConcat(a, b);
      assert run == init + last;
      LowerStrConcat(init, last);
    } else {
      LettersOfLowerWord(run);
    }
  }

  /** The replacement of a run holds no capital. */
  lemma RunReplacementNoUpper(run: string, atEnd: bool)
    requires run != []
    ensures NoUpper(RunReplacement(run, atEnd))
  {
  }

  /** Pass 2 keeps the letters of its input and leaves no capital. */
  lemma {:induction false} SplitAcronymsKeepsLetters(s: string)
    ensures Letters(SplitAcronyms(s)) == Letters(s)
    ensures NoUpper(SplitAcronyms(s))
    decreases |s|
  {
    if s != [] {
      if IsUpper(s[0]) {
        var n := UpperRun(s);
        var run := s[..n];
        assert s == run + s[n..];
        SplitAcronymsKeepsLetters(s[n..]);
        RunReplacementLetters(run, n == |s|);
        RunReplacementNoUpper(run, n == |s|);
        NoSeparatorsKept(run);
        LettersConcat(run, s[n..]);
        LettersConcat(RunReplacement(run, n == |s|), SplitAcronyms(s[n..]));
      } else {
        SplitAcronymsKeepsLetters(s[1..]);
        LettersCons(s);
        LettersCons([s[0]] + SplitAcronyms(s[1..]));
        assert ([s[0]] + SplitAcronyms(s[1..]))[1..] == SplitAcronyms(s[1..]);
      }
    }
  }

  /** A string of letters (no separator characters) keeps all of them. */
  lemma {:induction false} NoSeparatorsKept(t: string)
    requires forall i :: 0 <= i < |t| ==> !IsSeparator(t[i])
    ensures WithoutSeparators(t) == t
  {
    if t != [] {
      NoSeparatorsKept(t[1..]);
    }
  }

  /**
   * Inflector::toArray: the lower-case tokens of s.  Every token is non-empty and
   * holds no separator and no capital, and the tokens spell the input without its
   * separators, lower-cased, in both modes.
   */
  function ToArray(s: string, intelligentSplitting: bool): (r: seq<string>)
    ensures forall i :: 0 <= i < |r| ==> IsToken(r[i])
    ensures Concat(r) == Letters(s)
  {
    var prepared := if intelligentSplitting then SplitAcronyms(FoldIsolatedRuns(s)) else s;
    assert Letters(prepared) == Letters(s) by {
      if intelligentSplitting {
        FoldLowersOnly(s, true);
        LowersOnlyKeepsLetters(s, FoldIsolatedRuns(s));
        SplitAcronymsKeepsLetters(FoldIsolatedRuns(s));
      }
    }
    SplitFromTokens(prepared, "");
    SplitFromSpells(prepared, "");
    SplitWords(prepared)
  }

  /** In dumb mode a capital starts a new token: the text before it is split on its own. */
  lemma CutBeforeCapital(x: string, c: char, y: string)
    requires IsUpper(c)
    ensures ToArray(x + [c] + y, false) == ToArray(x, false) + ToArray([c] + y, false)
  {
    assert x + [c] + y == x + ([c] + y);
    SplitFromCut(x, [c] + y, "");
  }

  /** In dumb mode a separator ends the token and is dropped: each side is split on its own. */
  lemma CutAtSeparator(x: string, c: char, y: string)
    requires IsSeparator(c)
    ensures ToArray(x + [c] + y, false) == ToArray(x, false) + ToArray(y, false)
  {
    assert x + [c] + y == x + ([c] + y);
    SplitFromCut(x, [c] + y, "");
    assert ([c] + y)[1..] == y;
    assert SplitFrom([c] + y, "") == SplitFrom(y, "");
  }

  /** "fooBar" in dumb mode: the capital starts the second token. */
  lemma CamelCaseSplits()
    ensures ToArray("fooBar", false) == ["foo", "bar"]
  {
    var x, y := "foo", "ar";
    assert "fooBar" == x + ['B'] + y;
    CutBeforeCapital(x, 'B', y);
    assert IsToken(x);
    SplitWordsLast(x);
    CapitalThenWord('B', y);
    assert [ToLower('B')] + y == "bar";
  }

  /** A capital followed by lower-case text is one token. */
  lemma CapitalThenWord(c: char, w: string)
    requires IsUpper(c) && forall i :: 0 <= i < |w| ==> !IsSeparator(w[i]) && !IsUpper(w[i])
    ensures ToArray([c] + w, false) == [[ToLower(c)] + w]
  {
    assert ([c] + w)[1..] == w;
    assert SplitFrom([c] + w, "") == SplitFrom(w, [ToLower(c)]);
    assert w + "" == w;
    SplitThroughWord(w, "", [ToLower(c)]);
  }

  // ---------------------------------------------------------------------------
  // The two modes compared
  // ---------------------------------------------------------------------------

  /** Pass 1 finds nothing to do in a string without capitals. */
  lemma {:induction false} FoldWithoutCapitals(s: string, atStart: bool)
    requires NoUpper(s)
    ensures FoldRunsFrom(s, atStart) == s
    decreases |s|
  {
    if s != [] {
      NoMatchWithoutCapitals(s, atStart);
      FoldStepWithoutMatch(s, atStart);
      NoUpperTail(s);
      FoldWithoutCapitals(s[1..], false);
    }
  }

  lemma NoMatchWithoutCapitals(s: string, atStart: bool)
    requires s != [] && NoUpper(s)
    ensures MatchAt(s, atStart) == NoMatch
  {
    if IsSeparator(s[0]) {
      var q := SeparatorRun(s, s[0]);
      assert q < |s| ==> !IsUpper(s[q]);
    }
  }

  lemma NoUpperTail(s: string)
    requires s != [] && NoUpper(s)
    ensures NoUpper(s[1..]) && s == [s[0]] + s[1..]
  {
    assert forall i :: 0 <= i < |s[1..]| ==> s[1..][i] == s[i + 1];
  }

  /** Pass 2 finds nothing to do in a string without capitals. */
  lemma {:induction false} SplitAcronymsWithoutCapitals(s: string)
    requires NoUpper(s)
    ensures SplitAcronyms(s) == s
    decreases |s|
  {
    if s != [] {
      SplitAcronymsWithoutCapitals(s[1..]);
    }
  }

  /** Without capitals, intelligent splitting makes no difference. */
  lemma ModesAgreeWithoutCapitals(s: string)
    requires NoUpper(s)
    ensures ToArray(s, true) == ToArray(s, false)
  {
    FoldWithoutCapitals(s, true);
    SplitAcronymsWithoutCapitals(s);
  }

  /** Dumb mode cuts before every capital, so an all-caps word falls apart into letters. */
  lemma {:induction false} DumbSplitOfCapitals(t: string)
    requires forall i :: 0 <= i < |t| ==> IsUpper(t[i])
    ensures SplitWords(t) == seq(|t|, i requires 0 <= i < |t| => [ToLower(t[i])])
  {
    if t != [] {
      DumbSplitFromCapitals(t[1..], [ToLower(t[0])]);
    }
  }

  lemma {:induction false} DumbSplitFromCapitals(t: string, word: string)
    requires word != []
    requires forall i :: 0 <= i < |t| ==> IsUpper(t[i])
    ensures SplitFrom(t, word) == [word] + seq(|t|, i requires 0 <= i < |t| => [ToLower(t[i])])
  {
    if t != [] {
      DumbSplitFromCapitals(t[1..], [ToLower(t[0])]);
    }
  }

  /** Pass 1 over a word without separators lower-cases it exactly when it is all capitals. */
  lemma FoldWordWithoutSeparators(s: string)
    requires forall i :: 0 <= i < |s| ==> !IsSeparator(s[i])
    ensures FoldIsolatedRuns(s) == if s != [] && UpperRun(s) == |s| then LowerStr(s) else s
  {
    if s != [] {
      if UpperRun(s) == |s| {
        FoldAllCapitals(s);
      } else {
        FoldNotAllCapitals(s);
      }
    }
  }

  lemma FoldAllCapitals(s: string)
    requires s != [] && UpperRun(s) == |s|
    ensures FoldRunsFrom(s, true) == LowerStr(s)
  {
    MatchAllCapitals(s);
    WholeSlices(s);
    FoldStepAtMatch(s, true, 0, |s|, |s|, [], s, []);
    assert FoldRunsFrom([], false) == [];
    AppendEmpty(LowerStr(s));
  }

  lemma MatchAllCapitals(s: string)
    requires s != [] && UpperRun(s) == |s|
    ensures MatchAt(s, true) == Match(0, |s|, |s|)
  {
    assert s[0..] == s;
  }

  lemma WholeSlices(s: string)
    ensures s[..0] == [] && s[0..|s|] == s && s[|s|..|s|] == [] && s[|s|..] == []
  {
  }

  lemma AppendEmpty(x: string)
    ensures [] + x + [] + [] == x
  {
  }

  lemma FoldNotAllCapitals(s: string)
    requires s != [] && UpperRun(s) < |s|
    requires forall i :: 0 <= i < |s| ==> !IsSeparator(s[i])
    ensures FoldRunsFrom(s, true) == s
  {
    assert MatchAt(s, true) == NoMatch by {
      if IsUpper(s[0]) {
        var r := UpperRun(s);
        assert !IsSeparator(s[r]);
        assert s[0..] == s;
      }
    }
    FoldStepWithoutMatch(s, true);
    FoldRestWithoutSeparators(s[1..]);
    assert [s[0]] + s[1..] == s;
  }

  /** Where no match starts, pass 1 keeps the character and moves on. */
  lemma FoldStepWithoutMatch(s: string, atStart: bool)
    requires s != [] && MatchAt(s, atStart) == NoMatch
    ensures FoldRunsFrom(s, atStart) == [s[0]] + FoldRunsFrom(s[1..], false)
  {
  }

  /** Away from the start, pass 1 needs a separator to match at all. */
  lemma {:induction false} FoldRestWithoutSeparators(s: string)
    requires forall i :: 0 <= i < |s| ==> !IsSeparator(s[i])
    ensures FoldRunsFrom(s, false) == s
    decreases |s|
  {
    if s != [] {
      FoldRestWithoutSeparators(s[1..]);
    }
  }

  /** Pass 2 copies a stretch without capitals. */
  lemma {:induction false} SplitAcronymsThroughLower(t: string, rest: string)
    requires NoUpper(t)
    ensures SplitAcronyms(t + rest) == t + SplitAcronyms(rest)
  {
    if t != [] {
      var s := t + rest;
      assert s[0..] == s && s[1..] == t[1..] + rest;
      SplitAcronymsAtOther(s, 0);
      SplitAcronymsThroughLower(t[1..], rest);
      AppendAssoc([t[0]], t[1..], SplitAcronyms(rest));
      assert [t[0]] + t[1..] == t;
    } else {
      assert t + rest == rest;
    }
  }

  /** Pass 2 replaces a whole capital run that rest does not continue. */
  lemma SplitAcronymsOfRun(run: string, rest: string)
    requires run != [] && forall i :: 0 <= i < |run| ==> IsUpper(run[i])
    requires rest == [] || !IsUpper(rest[0])
    ensures SplitAcronyms(run + rest) == RunReplacement(run, rest == []) + SplitAcronyms(rest)
  {
    var s := run + rest;
    SplitAcronymsAtRun(s, 0, |run|);
    assert s[0..] == s && s[0..|run|] == run && s[|run|..] == rest;
  }

  /** An all-capitals word is one token in intelligent mode and one token per letter in dumb mode. */
  lemma AllCapitalsWord(t: string)
    requires t != [] && forall i :: 0 <= i < |t| ==> IsUpper(t[i])
    ensures ToArray(t, true) == [LowerStr(t)]
    ensures ToArray(t, false) == seq(|t|, i requires 0 <= i < |t| => [ToLower(t[i])])
  {
    FoldWordWithoutSeparators(t);
    assert NoUpper(LowerStr(t));
    SplitAcronymsWithoutCapitals(LowerStr(t));
    SplitThroughWord(LowerStr(t), "", "");
    assert LowerStr(t) + "" == LowerStr(t) && "" + LowerStr(t) == LowerStr(t);
    DumbSplitOfCapitals(t);
  }

  /** A leading separator contributes nothing to the split. */
  lemma SplitAfterSeparator(sep: char, t: string)
    requires IsSeparator(sep)
    ensures SplitWords([sep] + t) == SplitWords(t)
  {
    assert ([sep] + t)[1..] == t;
  }

  /** Two tokens joined by one separator. */
  lemma JoinPair(x: string, y: string, sep: char)
    ensures Join([x, y], [sep]) == x + [sep] + y
  {
    assert [x, y][1..] == [y];
  }

  /** A capitalised word starts a token: it is lower-cased and then read as a stretch without capitals. */
  lemma CapitalizedToken(c: char, w: string)
    requires IsUpper(c) && IsToken(w)
    ensures IsToken([ToLower(c)] + w)
  {
    var first := [ToLower(c)] + w;
    forall i | 0 <= i < |first| ensures !IsSeparator(first[i]) && !IsUpper(first[i]) {
      if i > 0 { assert first[i] == w[i - 1]; }
    }
  }

  /** Pass 2 on a capitalised word followed by an acronym that ends the string. */
  lemma SplitAcronymsCapitalizedThenAcronym(c: char, w: string, a: string)
    requires IsUpper(c) && IsToken(w)
    requires a != [] && forall i :: 0 <= i < |a| ==> IsUpper(a[i])
    ensures SplitAcronyms([c] + w + a) == [' '] + ([ToLower(c)] + w + [' '] + LowerStr(a))
  {
    var rest := w + a;
    assert rest[0] == w[0];
    SingleCapital(c, rest);
    SplitAcronymsThroughLower(w, a);
    WholeRun(a);
    RegroupRun(c, ToLower(c), w, a, LowerStr(a));
  }

  /** A single capital before a character that is not one: pass 2 puts a space before it. */
  lemma SingleCapital(c: char, rest: string)
    requires IsUpper(c) && rest != [] && !IsUpper(rest[0])
    ensures SplitAcronyms([c] + rest) == [' ', ToLower(c)] + SplitAcronyms(rest)
  {
    var s := [c] + rest;
    assert s[0] == c && s[1..] == rest && s[..1] == [c];
    assert UpperRun(s) == 1;
    assert LowerStr([c]) == [ToLower(c)];
  }

  /** A string that is one capital run: pass 2 puts a space before it and lower-cases it. */
  lemma WholeRun(a: string)
    requires a != [] && forall i :: 0 <= i < |a| ==> IsUpper(a[i])
    ensures SplitAcronyms(a) == [' '] + LowerStr(a)
  {
    WholeSlices(a);
    SplitAcronymsAtRun(a, 0, |a|);
    assert a[0..] == a;
  }

  lemma RegroupRun(c: char, lc: char, w: string, a: string, la: string)
    ensures [c] + w + a == [c] + (w + a)
    ensures [' ', lc] + (w + ([' '] + la)) == [' '] + ([lc] + w + [' '] + la)
  {
  }

  /**
   * A capitalised word followed by an acronym that ends the string, as in
   * "HelloWORLD": intelligent mode gives two tokens.
   */
  lemma CapitalizedWordThenAcronym(c: char, w: string, a: string)
    requires IsUpper(c) && IsToken(w)
    requires a != [] && forall i :: 0 <= i < |a| ==> IsUpper(a[i])
    ensures ToArray([c] + w + a, true) == [[ToLower(c)] + w, LowerStr(a)]
  {
    var s := [c] + w + a;
    var first := [ToLower(c)] + w;
    assert UpperRun(s) == 1 by {
      assert s[1..][0] == w[0];
      assert UpperRun(s[1..]) == 0;
    }
    FoldWordWithoutSeparators(s);
    SplitAcronymsCapitalizedThenAcronym(c, w, a);
    JoinPair(first, LowerStr(a), ' ');
    SplitAfterSeparator(' ', Join([first, LowerStr(a)], " "));
    CapitalizedToken(c, w);
    SplitJoined([first, LowerStr(a)], ' ');
  }

  /** The same input in dumb mode: the acronym falls apart into single letters. */
  lemma CapitalizedWordThenAcronymDumb(c: char, w: string, a: string)
    requires IsUpper(c) && IsToken(w)
    requires a != [] && forall i :: 0 <= i < |a| ==> IsUpper(a[i])
    ensures ToArray([c] + w + a, false)
         == [[ToLower(c)] + w] + seq(|a|, i requires 0 <= i < |a| => [ToLower(a[i])])
  {
    var s := [c] + w + a;
    assert s[1..] == w + a;
    SplitThroughWord(w, a, [ToLower(c)]);
    assert [ToLower(c)] + w != [];
    DumbSplitFromCapitals(a, [ToLower(c)] + w);
  }

  /** An all-capitals word becomes a token once lower-cased. */
  lemma LowerCapitalsToken(a: string)
    requires a != [] && forall i :: 0 <= i < |a| ==> IsUpper(a[i])
    ensures IsToken(LowerStr(a))
  {
  }

  /** A token followed by a separator is emitted whole. */
  lemma SplitWordsToken(t: string, sep: char, rest: string)
    requires IsToken(t) && IsSeparator(sep)
    ensures SplitWords(t + ([sep] + rest)) == [t] + SplitWords(rest)
  {
    SplitThroughWord(t, [sep] + rest, "");
    assert "" + t == t;
    assert ([sep] + rest)[1..] == rest;
  }

  /** A token on its own splits into itself. */
  lemma SplitWordsLast(t: string)
    requires IsToken(t)
    ensures SplitWords(t) == [t]
  {
    SplitThroughWord(t, "", "");
    assert t + "" == t && "" + t == t;
  }

  /** An acronym, a single-character separator, then a capital: pass 1 folds the acronym and eats the separator. */
  lemma FoldLeadingRun(a: string, sep: char, rest: string)
    requires a != [] && forall i :: 0 <= i < |a| ==> IsUpper(a[i])
    requires IsSeparator(sep) && rest != [] && IsUpper(rest[0])
    ensures FoldRunsFrom(a + [sep] + rest, true) == LowerStr(a) + [sep] + FoldRunsFrom(rest, false)
  {
    var s := a + [sep] + rest;
    var n := |a|;
    MatchLeadingRun(a, sep, rest);
    FoldStepAtMatch(s, true, 0, n, n + 1, [], a, [sep]);
    assert s[n + 1..] == rest;
    assert [] + LowerStr(a) == LowerStr(a);
  }

  lemma MatchLeadingRun(a: string, sep: char, rest: string)
    requires a != [] && forall i :: 0 <= i < |a| ==> IsUpper(a[i])
    requires IsSeparator(sep) && rest != [] && IsUpper(rest[0])
    ensures MatchAt(a + [sep] + rest, true) == Match(0, |a|, |a| + 1)
  {
    var s := a + [sep] + rest;
    var n := |a|;
    assert UpperRun(s) == n by {
      assert s[n] == sep;
      assert forall k :: 0 <= k < n ==> s[k] == a[k];
    }
    assert s[n..][0] == sep && s[n..][1] == rest[0];
    assert SeparatorRun(s[n..], sep) == 1 by {
      assert SeparatorRun(s[n..][1..], sep) == 0;
    }
  }

  /** A separator then an acronym that ends the string: pass 1 folds the acronym. */
  lemma FoldTrailingRun(sep: char, c: string)
    requires IsSeparator(sep)
    requires c != [] && forall i :: 0 <= i < |c| ==> IsUpper(c[i])
    ensures FoldRunsFrom([sep] + c, false) == [sep] + LowerStr(c)
  {
    var s := [sep] + c;
    MatchTrailingRun(sep, c);
    ConsSlices(sep, c);
    FoldStepAtMatch(s, false, 1, |s|, |s|, [sep], c, []);
    assert FoldRunsFrom([], false) == [];
    AppendEmptyAfter([sep], LowerStr(c));
  }

  lemma ConsSlices(sep: char, c: string)
    ensures var s := [sep] + c;
      s[..1] == [sep] && s[1..|s|] == c && s[|s|..|s|] == [] && s[|s|..] == []
  {
    var s := [sep] + c;
    assert s[1..|s|] == c;
  }

  lemma AppendEmptyAfter(x: string, y: string)
    ensures x + y + [] + [] == x + y
  {
  }

  lemma MatchTrailingRun(sep: char, c: string)
    requires IsSeparator(sep)
    requires c != [] && forall i :: 0 <= i < |c| ==> IsUpper(c[i])
    ensures MatchAt([sep] + c, false) == Match(1, |c| + 1, |c| + 1)
  {
    var s := [sep] + c;
    assert s[1..] == c;
    assert SeparatorRun(c, sep) == 0;
    assert SeparatorRun(s, sep) == 1;
    assert UpperRun(c) == |c|;
  }

  /** Where a match starts, pass 1 emits it with group 2 lower-cased and resumes after it. */
  lemma FoldStepAtMatch(s: string, atStart: bool, q: nat, r: nat, e: nat, pre: string, run: string, post: string)
    requires s != [] && MatchAt(s, atStart) == Match(q, r, e)
    requires pre == s[..q] && run == s[q..r] && post == s[r..e]
    ensures FoldRunsFrom(s, atStart) == pre + LowerStr(run) + post + FoldRunsFrom(s[e..], false)
  {
  }

  /** Away from the start, pass 1 copies a stretch without separators. */
  lemma {:induction false} FoldThroughWord(u: string, t: string)
    requires forall i :: 0 <= i < |u| ==> !IsSeparator(u[i])
    ensures FoldRunsFrom(u + t, false) == u + FoldRunsFrom(t, false)
  {
    if u == [] {
      assert u + t == t;
    } else {
      ConsSplit(u, t);
      FoldStepOverOther(u[0], u[1..] + t);
      FoldThroughWord(u[1..], t);
      AppendAssoc([u[0]], u[1..], FoldRunsFrom(t, false));
    }
  }

  lemma ConsSplit(u: string, t: string)
    requires u != []
    ensures u + t == [u[0]] + (u[1..] + t) && u == [u[0]] + u[1..]
  {
  }

  /** Away from the start, pass 1 copies a character that is not a separator. */
  lemma FoldStepOverOther(c: char, rest: string)
    requires !IsSeparator(c)
    ensures FoldRunsFrom([c] + rest, false) == [c] + FoldRunsFrom(rest, false)
  {
    var s := [c] + rest;
    assert s[0] == c && s[1..] == rest;
    assert MatchAt(s, false) == NoMatch;
  }

  /**
   * Pass 1 resumes after the separator it consumed, so of three acronyms
   * joined by single separators, as in "FOO_BAR_BAZ", the middle one is left
   * for pass 2.
   */
  lemma FoldThreeRuns(a: string, s1: char, b: string, s2: char, c: string)
    requires a != [] && forall i :: 0 <= i < |a| ==> IsUpper(a[i])
    requires b != [] && forall i :: 0 <= i < |b| ==> IsUpper(b[i])
    requires c != [] && forall i :: 0 <= i < |c| ==> IsUpper(c[i])
    requires IsSeparator(s1) && IsSeparator(s2)
    ensures FoldIsolatedRuns(a + [s1] + b + [s2] + c)
         == LowerStr(a) + [s1] + b + [s2] + LowerStr(c)
  {
    var rest := b + [s2] + c;
    AppendAssoc(a + [s1], b + [s2], c);
    AppendAssoc(a + [s1], b, [s2]);
    assert rest[0] == b[0];
    FoldLeadingRun(a, s1, rest);
    FoldAfterLeadingRun(b, s2, c);
    AppendAssoc(LowerStr(a) + [s1], b + [s2], LowerStr(c));
    AppendAssoc(LowerStr(a) + [s1], b, [s2]);
  }

  lemma FoldAfterLeadingRun(b: string, s2: char, c: string)
    requires forall i :: 0 <= i < |b| ==> IsUpper(b[i])
    requires c != [] && forall i :: 0 <= i < |c| ==> IsUpper(c[i])
    requires IsSeparator(s2)
    ensures FoldRunsFrom(b + [s2] + c, false) == b + [s2] + LowerStr(c)
  {
    AppendAssoc(b, [s2], c);
    FoldThroughWord(b, [s2] + c);
    FoldTrailingRun(s2, c);
    AppendAssoc(b, [s2], LowerStr(c));
  }

  /** Pass 2 over the result of FoldThreeRuns: only the middle acronym is replaced. */
  lemma SplitAcronymsThreeRuns(a: string, s1: char, b: string, s2: char, c: string)
    requires NoUpper(a) && NoUpper(c)
    requires |b| > 1 && forall i :: 0 <= i < |b| ==> IsUpper(b[i])
    requires IsSeparator(s1) && IsSeparator(s2)
    ensures SplitAcronyms(a + ([s1] + (b + ([s2] + c))))
         == a + ([s1] + ([' '] + (LowerStr(b[..|b| - 1]) + ([' '] + ([ToLower(b[|b| - 1])] + ([s2] + c))))))
  {
    SeparatorAlone(s1);
    SeparatorAlone(s2);
    var lead, tail := a + [s1], [s2] + c;
    var init, last := LowerStr(b[..|b| - 1]), [ToLower(b[|b| - 1])];
    AppendAssoc(a, [s1], b + tail);
    NoUpperConcat(a, [s1]);
    SplitAcronymsThroughLower(lead, b + tail);
    NoUpperConcat([s2], c);
    SplitAcronymsPushed(b, tail);
    AppendAssoc(a, [s1], [' '] + (init + ([' '] + (last + tail))));
  }

  /** Pass 2 on a run that does not end the string, followed by text without capitals. */
  lemma SplitAcronymsPushed(b: string, tail: string)
    requires |b| > 1 && forall i :: 0 <= i < |b| ==> IsUpper(b[i])
    requires tail != [] && NoUpper(tail)
    ensures SplitAcronyms(b + tail)
         == [' '] + (LowerStr(b[..|b| - 1]) + ([' '] + ([ToLower(b[|b| - 1])] + tail)))
  {
    var init, last := LowerStr(b[..|b| - 1]), [ToLower(b[|b| - 1])];
    SplitAcronymsOfRun(b, tail);
    SplitAcronymsWithoutCapitals(tail);
    RunReplacementPushed(b);
    AppendAssoc([' '], init + ([' '] + last), tail);
    AppendAssoc(init, [' '] + last, tail);
    AppendAssoc([' '], last, tail);
  }

  lemma SeparatorAlone(c: char)
    requires IsSeparator(c)
    ensures NoUpper([c])
  {
  }

  lemma NoUpperConcat(x: string, y: string)
    requires NoUpper(x) && NoUpper(y)
    ensures NoUpper(x + y)
  {
    forall i | 0 <= i < |x + y| ensures !IsUpper((x + y)[i]) {
      if i >= |x| { assert (x + y)[i] == y[i - |x|]; }
    }
  }

  /** The replacement of a run that does not end the string, with its last letter split off. */
  lemma RunReplacementPushed(b: string)
    requires |b| > 1
    ensures RunReplacement(b, false)
         == [' '] + (LowerStr(b[..|b| - 1]) + ([' '] + [ToLower(b[|b| - 1])]))
  {
    assert LowerStr(b[|b| - 1..]) == [ToLower(b[|b| - 1])];
  }

  /** Tokens of the pass-2 result of three acronyms. */
  lemma SplitThreeRuns(a: string, s1: char, b: string, s2: char, c: string)
    requires IsToken(a) && IsToken(c)
    requires |b| > 1 && forall i :: 0 <= i < |b| ==> IsUpper(b[i])
    requires IsSeparator(s1) && IsSeparator(s2)
    ensures SplitWords(a + ([s1] + ([' '] + (LowerStr(b[..|b| - 1]) + ([' '] + ([ToLower(b[|b| - 1])] + ([s2] + c)))))))
         == [a, LowerStr(b[..|b| - 1]), [ToLower(b[|b| - 1])], c]
  {
    var init, last := LowerStr(b[..|b| - 1]), [ToLower(b[|b| - 1])];
    LowerCapitalsToken(b[..|b| - 1]);
    LowerCapitalsToken(b[|b| - 1..]);
    assert LowerStr(b[|b| - 1..]) == last;
    SplitWordsToken(a, s1, [' '] + (init + ([' '] + (last + ([s2] + c)))));
    SplitAfterSeparator(' ', init + ([' '] + (last + ([s2] + c))));
    SplitWordsToken(init, ' ', last + ([s2] + c));
    SplitWordsToken(last, s2, c);
    SplitWordsLast(c);
  }

  /**
   * "FOO_BAR_BAZ" in intelligent mode: pass 1 folds the outer acronyms, pass 2
   * treats the middle one as an acronym followed by a capitalised word, so its
   * last letter becomes a token of its own.
   */
  lemma ThreeRunsTokens(a: string, s1: char, b: string, s2: char, c: string)
    requires a != [] && forall i :: 0 <= i < |a| ==> IsUpper(a[i])
    requires |b| > 1 && forall i :: 0 <= i < |b| ==> IsUpper(b[i])
    requires c != [] && forall i :: 0 <= i < |c| ==> IsUpper(c[i])
    requires IsSeparator(s1) && IsSeparator(s2)
    ensures ToArray(a + [s1] + b + [s2] + c, true)
         == [LowerStr(a), LowerStr(b[..|b| - 1]), [ToLower(b[|b| - 1])], LowerStr(c)]
  {
    var la, lc := LowerStr(a), LowerStr(c);
    FoldThreeRuns(a, s1, b, s2, c);
    assert la + [s1] + b + [s2] + lc == la + ([s1] + (b + ([s2] + lc))) by {
      AppendAssoc(la + [s1] + b, [s2], lc);
      AppendAssoc(la + [s1], b, [s2] + lc);
      AppendAssoc(la, [s1], b + ([s2] + lc));
    }
    LowerCapitalsToken(a);
    LowerCapitalsToken(c);
    SplitAcronymsThreeRuns(la, s1, b, s2, lc);
    SplitThreeRuns(la, s1, b, s2, lc);
  }

  /**
   * An acronym run straight into a lower-case word, as in "FAQand": the run's
   * last letter is taken for the initial of the next word.
   */
  lemma AcronymBeforeWord(a: string, w: string)
    requires |a| > 1 && forall i :: 0 <= i < |a| ==> IsUpper(a[i])
    requires IsToken(w)
    ensures ToArray(a + w, true) == [LowerStr(a[..|a| - 1]), [ToLower(a[|a| - 1])] + w]
  {
    var s := a + w;
    var init, last := LowerStr(a[..|a| - 1]), [ToLower(a[|a| - 1])];
    FoldAcronymBeforeWord(a, w);
    SplitAcronymsPushed(a, w);
    SplitAfterSeparator(' ', init + ([' '] + (last + w)));
    LowerCapitalsToken(a[..|a| - 1]);
    SplitWordsToken(init, ' ', last + w);
    CapitalizedToken(a[|a| - 1], w);
    SplitWordsLast(last + w);
  }

  lemma FoldAcronymBeforeWord(a: string, w: string)
    requires a != [] && forall i :: 0 <= i < |a| ==> IsUpper(a[i])
    requires IsToken(w)
    ensures FoldIsolatedRuns(a + w) == a + w
  {
    var s := a + w;
    assert UpperRun(s) == |a| by {
      assert s[|a|] == w[0];
      assert forall k :: 0 <= k < |a| ==> s[k] == a[k];
    }
    forall i | 0 <= i < |s| ensures !IsSeparator(s[i]) {
      if i < |a| { assert s[i] == a[i]; } else { assert s[i] == w[i - |a|]; }
    }
    FoldWordWithoutSeparators(s);
  }
}
